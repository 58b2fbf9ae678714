/** Each step of vfs.c and tmpfs.c keeps the counts (VfsRefs) exact. */
module VfsSteps {
  import opened Basics
  import opened VfsRefs

  ghost predicate Sound(s: State) {
    Inv(s, {ROOT}, None, {})
  }

  // ----- what soundness says

  function LinksTo(vnodes: Vnodes, v: nat): set<Holder> {
    set u, i | u in vnodes && 0 <= i < |vnodes[u].child| && vnodes[u].child[i].vnode == v ::
          ByLink(vnodes[u].child[i].id)
  }

  function MountsOn(vnodes: Vnodes, v: nat): set<Holder> {
    set u | u in vnodes && vnodes[u].mount == Some(v) :: ByMount(u)
  }

  /** Mount fields of vnodes that were freed while something was mounted on them. */
  function LeakedMounts(vnodes: Vnodes, holders: Holders, v: nat): set<Holder> {
    set h | h in holders && h.ByMount? && h.mountpoint !in vnodes && holders[h] == v
  }

  function FilesOn(files: map<nat, nat>, v: nat): set<Holder> {
    set f | f in files && files[f] == v :: ByFile(f)
  }

  function RootsOn(roots: map<nat, nat>, v: nat): set<Holder> {
    set d | d in roots && roots[d] == v :: ByRoot(d)
  }

  /** Conservation: a count is directory links, mounts, open files and root fields. */
  lemma CountIsReferences(s: State, v: nat)
    requires Sound(s) && v in s.vnodes
    ensures s.vnodes[v].refcount ==
              |LinksTo(s.vnodes, v)| + |MountsOn(s.vnodes, v)| + |FilesOn(s.files, v)| + |RootsOn(s.roots, v)| +
              |LeakedMounts(s.vnodes, s.holders, v)|
    ensures s.vnodes[v].refcount == 0 <==> v == ROOT
  {
    hide LinksTo, MountsOn, FilesOn, RootsOn, LeakedMounts, Listed, OneList, Rooted, Mounted, Opened, Driven, Held;
    assert CountExact(s.vnodes, s.holders, {ROOT}, None, v);
    NotHeld(s.holders, v);
    HeldIs(s, v);
    KindsApart(s, v);
    SizeOfFive(LinksTo(s.vnodes, v), MountsOn(s.vnodes, v), FilesOn(s.files, v), RootsOn(s.roots, v),
               LeakedMounts(s.vnodes, s.holders, v));
  }

  lemma KindsApart(s: State, v: nat)
    ensures LinksTo(s.vnodes, v) !! MountsOn(s.vnodes, v) !! FilesOn(s.files, v) !! RootsOn(s.roots, v) !!
            LeakedMounts(s.vnodes, s.holders, v)
  {
  }

  lemma SizeOfFive(a: set<Holder>, b: set<Holder>, c: set<Holder>, d: set<Holder>, e: set<Holder>)
    requires a !! b !! c !! d !! e
    ensures |a + b + c + d + e| == |a| + |b| + |c| + |d| + |e|
  {
    assert |a + b| == |a| + |b|;
    assert |a + b + c| == |a + b| + |c|;
    assert |a + b + c + d| == |a + b + c| + |d|;
  }

  lemma HeldIs(s: State, v: nat)
    requires Sound(s)
    ensures Held(s.holders, v) == LinksTo(s.vnodes, v) + MountsOn(s.vnodes, v) + FilesOn(s.files, v) +
                                  RootsOn(s.roots, v) + LeakedMounts(s.vnodes, s.holders, v)
  {
    hide Sound;
    var all := LinksTo(s.vnodes, v) + MountsOn(s.vnodes, v) + FilesOn(s.files, v) + RootsOn(s.roots, v) +
               LeakedMounts(s.vnodes, s.holders, v);
    forall h ensures h in Held(s.holders, v) <==> h in all {
      if h.ByLink? {
        LinkIsHeld(s, v, h);
      } else {
        OtherIsHeld(s, v, h);
      }
    }
  }

  lemma LinkIsHeld(s: State, v: nat, h: Holder)
    requires Sound(s) && h.ByLink?
    ensures h in s.holders && s.holders[h] == v <==> h in LinksTo(s.vnodes, v)
  {
    hide Counted, Driven, Mounted, Opened;
    RootHasNoLinks(s);
    if h in s.holders {
      assert HasDirectory(s.vnodes, h.link);
      var u, i :| u in s.vnodes && 0 <= i < |s.vnodes[u].child| && s.vnodes[u].child[i].id == h.link;
      assert IsHeldLink(s.vnodes, s.holders, u, i);
    }
    if h in LinksTo(s.vnodes, v) {
      var u, i :| u in s.vnodes && 0 <= i < |s.vnodes[u].child| && s.vnodes[u].child[i].vnode == v &&
                  h == ByLink(s.vnodes[u].child[i].id);
      assert IsHeldLink(s.vnodes, s.holders, u, i);
    }
  }

  lemma OtherIsHeld(s: State, v: nat, h: Holder)
    requires Sound(s) && !h.ByLink?
    ensures h in s.holders && s.holders[h] == v <==>
              h in MountsOn(s.vnodes, v) || h in FilesOn(s.files, v) || h in RootsOn(s.roots, v) ||
              h in LeakedMounts(s.vnodes, s.holders, v)
  {
    hide Counted, Driven, Listed, OneList, Rooted, Targets;
  }

  lemma RootHasNoLinks(s: State)
    requires Sound(s)
    ensures ROOT in s.vnodes ==> s.vnodes[ROOT].child == []
  {
  }

  /** The vnode of an open file exists, and the count of a driver that has vnodes is theirs. */
  lemma NothingInUseIsFreed(s: State)
    requires Sound(s)
    ensures forall f :: f in s.files ==> s.files[f] in s.vnodes
    ensures forall d :: d in s.roots ==> s.roots[d] in s.vnodes
    ensures forall v :: v in s.vnodes && s.vnodes[v].mount.Some? ==> s.vnodes[v].mount.value in s.vnodes
    ensures forall v, i :: v in s.vnodes && 0 <= i < |s.vnodes[v].child| ==> s.vnodes[v].child[i].vnode in s.vnodes
    ensures forall v :: v in s.vnodes && v != ROOT ==> s.vnodes[v].driver.Some? && s.vnodes[v].driver.value in s.drivers
    ensures forall d :: d in s.drivers ==>
              s.drivers[d] == |VnodesOf(s.vnodes, d)| + (if d in s.owned then 1 else 0) && s.drivers[d] > 0
  {
    forall v, i | v in s.vnodes && 0 <= i < |s.vnodes[v].child| ensures s.vnodes[v].child[i].vnode in s.vnodes {
      RootHasNoLinks(s);
      assert IsHeldLink(s.vnodes, s.holders, v, i);
    }
    forall d | d in s.drivers
      ensures s.drivers[d] == |VnodesOf(s.vnodes, d)| + (if d in s.owned then 1 else 0) && s.drivers[d] > 0
    {
      assert DriverExact(s.vnodes, s.drivers, s.owned, d);
    }
  }

  lemma ReleasedNames(was: State, now: State, unheld: set<nat>, driver: Option<nat>, next: nat)
    requires Named(was, next) && Released(was, now, unheld, driver)
    ensures Named(now, next)
  {
  }

  /** All names in use are below the next. */
  ghost predicate Named(s: State, next: nat) {
    && next > ROOT
    && (forall v :: v in s.vnodes ==> v < next) && (forall d :: d in s.drivers ==> d < next)
    && (forall f :: f in s.files ==> f < next) && (forall d :: d in s.roots ==> d < next)
    && (forall h :: h in s.holders ==> (h.ByLink? ==> h.link < next) && (h.ByMount? ==> h.mountpoint < next))
  }

  // ----- a new holder of an existing vnode

  function Raised(s: State, v: nat, h: Holder): State
    requires v in s.vnodes
  {
    s.(vnodes := s.vnodes[v := s.vnodes[v].(refcount := s.vnodes[v].refcount + 1)], holders := s.holders[h := v])
  }

  lemma RaisedKeeps(s: State, v: nat, h: Holder)
    requires Sound(s) && v in s.vnodes && v != ROOT && h !in s.holders && !h.ByLink?
    ensures var now := Raised(s, v, h);
            && Targets(now.vnodes, now.holders, {ROOT}) && Counted(now.vnodes, now.holders, {ROOT}, None)
            && Listed(now.vnodes, now.holders, {ROOT}) && OneList(now.vnodes) && Rooted(now.vnodes, now.holders)
            && Driven(now.vnodes, now.drivers, now.owned)
    ensures !h.ByMount? ==> Mounted(Raised(s, v, h).vnodes, Raised(s, v, h).holders, {})
  {
    hide Counted, Listed, OneList, Rooted, Driven;
    RaisedCounts(s, v, h);
    RaisedLists(s, v, h);
    RaisedDrivers(s, v, h);
  }

  lemma RaisedCounts(s: State, v: nat, h: Holder)
    requires Counted(s.vnodes, s.holders, {ROOT}, None) && v in s.vnodes && v != ROOT && h !in s.holders
    ensures Counted(Raised(s, v, h).vnodes, Raised(s, v, h).holders, {ROOT}, None)
  {
    hide Count;
    var now := Raised(s, v, h);
    forall u | u in now.vnodes ensures CountExact(now.vnodes, now.holders, {ROOT}, None, u) {
      assert CountExact(s.vnodes, s.holders, {ROOT}, None, u);
      CountAfterAdding(s.holders, h, v, u);
    }
  }

  lemma RaisedLists(s: State, v: nat, h: Holder)
    requires Listed(s.vnodes, s.holders, {ROOT}) && OneList(s.vnodes) && Rooted(s.vnodes, s.holders)
    requires v in s.vnodes && h !in s.holders && !h.ByLink?
    ensures var now := Raised(s, v, h);
            Listed(now.vnodes, now.holders, {ROOT}) && OneList(now.vnodes) && Rooted(now.vnodes, now.holders)
  {
    var now := Raised(s, v, h);
    forall u, i | u in now.vnodes && u !in {ROOT} && 0 <= i < |now.vnodes[u].child|
      ensures IsHeldLink(now.vnodes, now.holders, u, i)
    {
      assert IsHeldLink(s.vnodes, s.holders, u, i);
    }
    forall u, i, w, j | u in now.vnodes && w in now.vnodes && 0 <= i < |now.vnodes[u].child| &&
                        0 <= j < |now.vnodes[w].child| && SameLink(now.vnodes, u, i, w, j)
      ensures u == w && i == j
    {
      assert SameLink(s.vnodes, u, i, w, j);
    }
    forall g | g in now.holders && g.ByLink? ensures HasDirectory(now.vnodes, g.link) {
      assert HasDirectory(s.vnodes, g.link);
      var u, i :| u in s.vnodes && 0 <= i < |s.vnodes[u].child| && s.vnodes[u].child[i].id == g.link;
      assert now.vnodes[u].child[i].id == g.link;
    }
  }

  lemma RaisedDrivers(s: State, v: nat, h: Holder)
    requires Driven(s.vnodes, s.drivers, s.owned) && v in s.vnodes
    ensures Driven(Raised(s, v, h).vnodes, s.drivers, s.owned)
  {
    var now := Raised(s, v, h).vnodes;
    forall d | d in s.drivers ensures DriverExact(now, s.drivers, s.owned, d) {
      assert DriverExact(s.vnodes, s.drivers, s.owned, d);
      assert VnodesOf(now, d) == VnodesOf(s.vnodes, d);
    }
  }

  /** tmpfs_open */
  lemma OpenKeeps(s: State, v: nat, f: nat)
    requires Sound(s) && v in s.vnodes && v != ROOT && f !in s.files
    ensures Sound(Raised(s, v, ByFile(f)).(files := s.files[f := v]))
  {
    hide Targets, Counted, Listed, OneList, Rooted, Mounted, Driven;
    RaisedKeeps(s, v, ByFile(f));
  }

  /** vfs_mount at the end of a chain of mounts */
  lemma MountKeeps(s: State, e: nat, root: nat)
    requires Sound(s) && e in s.vnodes && s.vnodes[e].mount == None && root in s.vnodes && root != ROOT && e != root
    ensures var now := Raised(s, root, ByMount(e));
            Sound(now.(vnodes := now.vnodes[e := now.vnodes[e].(mount := Some(root))]))
  {
    hide Targets, Counted, Listed, OneList, Rooted, Driven;
    var h := ByMount(e);
    assert h !in s.holders;
    RaisedKeeps(s, root, h);
    MountFieldOnly(Raised(s, root, h), e, Some(root), {ROOT}, None);
  }

  /** Nothing but Mounted depends on a mount field. */
  lemma MountFieldOnly(s: State, e: nat, mount: Option<nat>, unheld: set<nat>, surplus: Option<nat>)
    requires e in s.vnodes && Targets(s.vnodes, s.holders, unheld) && Counted(s.vnodes, s.holders, unheld, surplus)
    requires Listed(s.vnodes, s.holders, unheld) && OneList(s.vnodes) && Rooted(s.vnodes, s.holders)
    requires Driven(s.vnodes, s.drivers, s.owned)
    ensures var now := s.vnodes[e := s.vnodes[e].(mount := mount)];
            && Targets(now, s.holders, unheld) && Counted(now, s.holders, unheld, surplus)
            && Listed(now, s.holders, unheld) && OneList(now) && Rooted(now, s.holders)
            && Driven(now, s.drivers, s.owned)
  {
    hide Targets, Counted, Listed, OneList, Rooted, Driven;
    MountFieldCounts(s, e, mount, unheld, surplus);
    MountFieldLists(s, e, mount, unheld);
    MountFieldDrivers(s, e, mount);
  }

  lemma MountFieldCounts(s: State, e: nat, mount: Option<nat>, unheld: set<nat>, surplus: Option<nat>)
    requires e in s.vnodes && Targets(s.vnodes, s.holders, unheld) && Counted(s.vnodes, s.holders, unheld, surplus)
    ensures var now := s.vnodes[e := s.vnodes[e].(mount := mount)];
            Targets(now, s.holders, unheld) && Counted(now, s.holders, unheld, surplus)
  {
    hide Count;
    var now := s.vnodes[e := s.vnodes[e].(mount := mount)];
    forall u | u in now ensures CountExact(now, s.holders, unheld, surplus, u) {
      assert CountExact(s.vnodes, s.holders, unheld, surplus, u);
    }
  }

  lemma MountFieldLists(s: State, e: nat, mount: Option<nat>, unheld: set<nat>)
    requires e in s.vnodes && Listed(s.vnodes, s.holders, unheld) && OneList(s.vnodes) && Rooted(s.vnodes, s.holders)
    ensures var now := s.vnodes[e := s.vnodes[e].(mount := mount)];
            Listed(now, s.holders, unheld) && OneList(now) && Rooted(now, s.holders)
  {
    var now := s.vnodes[e := s.vnodes[e].(mount := mount)];
    forall u, i | u in now && u !in unheld && 0 <= i < |now[u].child| ensures IsHeldLink(now, s.holders, u, i) {
      assert IsHeldLink(s.vnodes, s.holders, u, i);
    }
    forall u, i, w, j | u in now && w in now && 0 <= i < |now[u].child| && 0 <= j < |now[w].child| &&
             SameLink(now, u, i, w, j)
      ensures u == w && i == j
    {
      assert SameLink(s.vnodes, u, i, w, j);
    }
    forall g | g in s.holders && g.ByLink? ensures HasDirectory(now, g.link) {
      assert HasDirectory(s.vnodes, g.link);
      var u, i :| u in s.vnodes && 0 <= i < |s.vnodes[u].child| && s.vnodes[u].child[i].id == g.link;
      assert now[u].child[i].id == g.link;
    }
  }

  lemma MountFieldDrivers(s: State, e: nat, mount: Option<nat>)
    requires e in s.vnodes && Driven(s.vnodes, s.drivers, s.owned)
    ensures Driven(s.vnodes[e := s.vnodes[e].(mount := mount)], s.drivers, s.owned)
  {
    var now := s.vnodes[e := s.vnodes[e].(mount := mount)];
    forall d | d in s.drivers ensures DriverExact(now, s.drivers, s.owned, d) {
      assert DriverExact(s.vnodes, s.drivers, s.owned, d);
      assert VnodesOf(now, d) == VnodesOf(s.vnodes, d);
    }
  }

  // ----- a holder lets go

  /** A mount field, a file or a root field lets go. */
  lemma LettingGoKeeps(s: State, h: Holder)
    requires Sound(s) && h in s.holders && !h.ByLink?
    ensures var now := s.holders - {h};
            && Targets(s.vnodes, now, {ROOT}) && Counted(s.vnodes, now, {ROOT}, Some(s.holders[h]))
            && Listed(s.vnodes, now, {ROOT}) && OneList(s.vnodes) && Rooted(s.vnodes, now)
            && Driven(s.vnodes, s.drivers, s.owned)
    ensures s.holders[h] in s.vnodes && s.holders[h] != ROOT
    ensures !h.ByMount? ==> Mounted(s.vnodes, s.holders - {h}, {})
  {
    hide Counted, OneList, Driven, Listed;
    CountedWithout(s, h, {ROOT});
    ListedWithoutOther(s, h);
  }

  lemma ListedWithoutOther(s: State, h: Holder)
    requires Listed(s.vnodes, s.holders, {ROOT}) && !h.ByLink?
    ensures Listed(s.vnodes, s.holders - {h}, {ROOT})
  {
    forall u, i | u in s.vnodes && u !in {ROOT} && 0 <= i < |s.vnodes[u].child|
      ensures IsHeldLink(s.vnodes, s.holders - {h}, u, i)
    {
      assert IsHeldLink(s.vnodes, s.holders, u, i);
    }
  }

  lemma CloseKeeps(s: State, f: nat)
    requires Sound(s) && f in s.files
    ensures ByFile(f) in s.holders && s.files[f] in s.vnodes && s.files[f] !in {ROOT}
    ensures Inv(s.(files := s.files - {f}, holders := s.holders - {ByFile(f)}), {ROOT}, Some(s.files[f]), {})
  {
    hide Targets, Counted, Listed, OneList, Rooted, Mounted, Driven;
    LettingGoKeeps(s, ByFile(f));
  }

  lemma DestroyKeeps(s: State, d: nat)
    requires Sound(s) && d in s.roots
    ensures ByRoot(d) in s.holders && s.roots[d] in s.vnodes && s.roots[d] !in {ROOT}
    ensures Inv(s.(roots := s.roots - {d}, holders := s.holders - {ByRoot(d)}), {ROOT}, Some(s.roots[d]), {})
  {
    hide Targets, Counted, Listed, OneList, Rooted, Mounted, Driven;
    LettingGoKeeps(s, ByRoot(d));
  }

  lemma UnmountKeeps(s: State, e: nat)
    requires Sound(s) && e in s.vnodes && s.vnodes[e].mount.Some?
    ensures ByMount(e) in s.holders && s.vnodes[e].mount.value in s.vnodes && s.vnodes[e].mount.value !in {ROOT}
    ensures Inv(s.(holders := s.holders - {ByMount(e)}), {ROOT}, s.vnodes[e].mount, {e})
  {
    hide Targets, Counted, Listed, OneList, Rooted, Driven;
    LettingGoKeeps(s, ByMount(e));
  }

  /** The mount field is cleared, unless its vnode was freed. */
  function Cleared(s: State, e: nat): State {
    if e in s.vnodes then s.(vnodes := s.vnodes[e := s.vnodes[e].(mount := None)]) else s
  }

  lemma ClearedMountKeeps(s: State, e: nat)
    requires Inv(s, {ROOT}, None, {e})
    ensures Sound(Cleared(s, e))
  {
    hide Targets, Counted, Listed, OneList, Rooted, Driven;
    if e in s.vnodes {
      MountFieldOnly(s, e, None, {ROOT}, None);
    }
  }

  /** The file system stops counting itself. */
  function Disowned(s: State, d: nat): State
    requires d in s.drivers
  {
    s.(owned := s.owned - {d}, drivers := WithoutOne(s.drivers, d))
  }

  lemma DisownedKeeps(s: State, d: nat)
    requires Sound(s) && d in s.owned
    ensures d in s.drivers && Sound(Disowned(s, d))
  {
    hide Targets, Counted, Listed, OneList, Rooted, Mounted;
    assert DriverExact(s.vnodes, s.drivers, s.owned, d);
    var now := Disowned(s, d);
    forall e | e in now.drivers ensures DriverExact(now.vnodes, now.drivers, now.owned, e) {
      assert DriverExact(s.vnodes, s.drivers, s.owned, e);
    }
    forall u | u in now.vnodes && u != ROOT
      ensures now.vnodes[u].driver.Some? && now.vnodes[u].driver.value in now.drivers
    {
      if now.vnodes[u].driver == Some(d) {
        MembersCount(VnodesOf(now.vnodes, d), u);
      }
    }
  }

  // ----- links made and removed

  function Made(s: State, parent: nat, link: Link): State
    requires parent in s.vnodes && s.vnodes[parent].driver.Some? && s.vnodes[parent].driver.value in s.drivers
  {
    var d := s.vnodes[parent].driver.value;
    s.(vnodes := s.vnodes[link.vnode := Vnode(1, [], None, Some(d))]
                         [parent := s.vnodes[parent].(child := [link] + s.vnodes[parent].child)],
       drivers := s.drivers[d := s.drivers[d] + 1],
       holders := s.holders[ByLink(link.id) := link.vnode])
  }

  /** Names not in use. */
  ghost predicate Unused(s: State, link: Link) {
    && link.vnode !in s.vnodes && ByMount(link.vnode) !in s.holders && link.vnode != ROOT
    && ByLink(link.id) !in s.holders
  }

  /** tmpfs_createi */
  lemma MakingKeeps(s: State, parent: nat, link: Link)
    requires Sound(s) && parent in s.vnodes && parent != ROOT && Unused(s, link)
    ensures s.vnodes[parent].driver.Some? && s.vnodes[parent].driver.value in s.drivers
    ensures Sound(Made(s, parent, link))
  {
    hide Targets, Counted, Listed, OneList, Rooted, Mounted, Opened, Driven, Made, Unused;
    ParentHasDriver(s, parent);
    MakingRest(s, parent, link);
    MakingCounts(s, parent, link);
    MakingLists(s, parent, link);
    MakingOneList(s, parent, link);
    MakingRooted(s, parent, link);
    MakingDrivers(s, parent, link);
  }

  lemma ParentHasDriver(s: State, parent: nat)
    requires Sound(s) && parent in s.vnodes && parent != ROOT
    ensures s.vnodes[parent].driver.Some? && s.vnodes[parent].driver.value in s.drivers
  {
  }

  lemma MakingNames(s: State, parent: nat, name: string, next: nat)
    requires Named(s, next) && parent in s.vnodes
    requires s.vnodes[parent].driver.Some? && s.vnodes[parent].driver.value in s.drivers
    ensures next !in s.vnodes && Unused(s, Link(next + 1, name, next))
    ensures Named(Made(s, parent, Link(next + 1, name, next)), next + 2)
  {
  }

  lemma MakingRest(s: State, parent: nat, link: Link)
    requires Sound(s) && parent in s.vnodes && Unused(s, link)
    requires s.vnodes[parent].driver.Some? && s.vnodes[parent].driver.value in s.drivers
    ensures var now := Made(s, parent, link);
            && Targets(now.vnodes, now.holders, {ROOT}) && Mounted(now.vnodes, now.holders, {})
            && Opened(now.files, now.roots, now.holders)
  {
    hide Targets, Counted, Listed, OneList, Rooted, Mounted, Driven;
    MakingTargets(s, parent, link);
    MakingMounts(s, parent, link);
    hide Unused;
  }

  /** What is at each vnode afterwards. */
  lemma MadeAt(s: State, parent: nat, link: Link, u: nat)
    requires parent in s.vnodes && Unused(s, link)
    requires s.vnodes[parent].driver.Some? && s.vnodes[parent].driver.value in s.drivers
    ensures var now := Made(s, parent, link).vnodes;
            && (u in now <==> u in s.vnodes || u == link.vnode) && link.vnode !in s.vnodes
            && (u in s.vnodes ==>
                  && now[u].driver == s.vnodes[u].driver && now[u].mount == s.vnodes[u].mount
                  && now[u].child == (if u == parent then [link] + s.vnodes[u].child else s.vnodes[u].child))
            && (u == link.vnode ==> now[u] == Vnode(1, [], None, s.vnodes[parent].driver))
  {
  }

  lemma MakingTargets(s: State, parent: nat, link: Link)
    requires Targets(s.vnodes, s.holders, {ROOT}) && parent in s.vnodes && Unused(s, link)
    requires s.vnodes[parent].driver.Some? && s.vnodes[parent].driver.value in s.drivers
    ensures Targets(Made(s, parent, link).vnodes, Made(s, parent, link).holders, {ROOT})
  {
  }

  lemma MakingMounts(s: State, parent: nat, link: Link)
    requires Mounted(s.vnodes, s.holders, {}) && parent in s.vnodes && Unused(s, link)
    requires s.vnodes[parent].driver.Some? && s.vnodes[parent].driver.value in s.drivers
    ensures Mounted(Made(s, parent, link).vnodes, Made(s, parent, link).holders, {})
  {
    var now := Made(s, parent, link);
    assert forall v :: ByMount(v) in now.holders <==> ByMount(v) in s.holders;
    forall u | u in now.vnodes
      ensures if now.vnodes[u].mount == None then ByMount(u) !in now.holders
              else ByMount(u) in now.holders && now.holders[ByMount(u)] == now.vnodes[u].mount.value
    {
      MadeAt(s, parent, link, u);
    }
  }

  lemma MakingCounts(s: State, parent: nat, link: Link)
    requires Counted(s.vnodes, s.holders, {ROOT}, None) && Targets(s.vnodes, s.holders, {ROOT})
    requires parent in s.vnodes && Unused(s, link)
    requires s.vnodes[parent].driver.Some? && s.vnodes[parent].driver.value in s.drivers
    ensures Counted(Made(s, parent, link).vnodes, Made(s, parent, link).holders, {ROOT}, None)
  {
    hide Count;
    var now := Made(s, parent, link);
    NotHeld(s.holders, link.vnode);
    forall u | u in now.vnodes ensures CountExact(now.vnodes, now.holders, {ROOT}, None, u) {
      assert u != link.vnode ==> CountExact(s.vnodes, s.holders, {ROOT}, None, u);
      CountAfterAdding(s.holders, ByLink(link.id), link.vnode, u);
    }
  }

  lemma MakingLists(s: State, parent: nat, link: Link)
    requires Listed(s.vnodes, s.holders, {ROOT}) && parent in s.vnodes && parent != ROOT && Unused(s, link)
    requires s.vnodes[parent].driver.Some? && s.vnodes[parent].driver.value in s.drivers
    ensures Listed(Made(s, parent, link).vnodes, Made(s, parent, link).holders, {ROOT})
  {
    var now := Made(s, parent, link);
    forall u, i | u in now.vnodes && u !in {ROOT} && 0 <= i < |now.vnodes[u].child|
      ensures IsHeldLink(now.vnodes, now.holders, u, i)
    {
      if u != parent {
        assert IsHeldLink(s.vnodes, s.holders, u, i);
      } else if i > 0 {
        assert IsHeldLink(s.vnodes, s.holders, u, i - 1);
      }
    }
  }

  /** The new link is in no list yet. */
  lemma LinkIsNew(s: State, link: Link, u: nat, i: nat)
    requires Sound(s) && Unused(s, link) && u in s.vnodes && i < |s.vnodes[u].child|
    ensures s.vnodes[u].child[i].id != link.id
  {
    RootHasNoLinks(s);
    assert IsHeldLink(s.vnodes, s.holders, u, i);
  }

  lemma LinkIsNewEverywhere(s: State, link: Link)
    requires Sound(s) && Unused(s, link)
    ensures forall u, i :: u in s.vnodes && 0 <= i < |s.vnodes[u].child| ==> s.vnodes[u].child[i].id != link.id
  {
    hide Inv, Unused;
    forall u, i | u in s.vnodes && 0 <= i < |s.vnodes[u].child| ensures s.vnodes[u].child[i].id != link.id {
      LinkIsNew(s, link, u, i);
    }
  }

  lemma MakingOneList(s: State, parent: nat, link: Link)
    requires Sound(s) && parent in s.vnodes && Unused(s, link)
    requires s.vnodes[parent].driver.Some? && s.vnodes[parent].driver.value in s.drivers
    ensures OneList(Made(s, parent, link).vnodes)
  {
    hide Inv, Unused;
    var now := Made(s, parent, link).vnodes;
    forall u, i: nat, w, j: nat | u in now && w in now && i < |now[u].child| && j < |now[w].child| &&
             SameLink(now, u, i, w, j)
      ensures u == w && i == j
    {
      MakingSameLink(s, parent, link, u, i, w, j);
    }
  }

  lemma MakingSameLink(s: State, parent: nat, link: Link, u: nat, i: nat, w: nat, j: nat)
    requires Sound(s) && parent in s.vnodes && Unused(s, link)
    requires s.vnodes[parent].driver.Some? && s.vnodes[parent].driver.value in s.drivers
    requires var now := Made(s, parent, link).vnodes;
             u in now && w in now && i < |now[u].child| && j < |now[w].child| && SameLink(now, u, i, w, j)
    ensures u == w && i == j
  {
    hide Sound, OneList, Made, Unused;
    OneListOf(s);
    MadeAt(s, parent, link, u);
    MadeAt(s, parent, link, w);
    LinkIsNewEverywhere(s, link);
    if u == parent && i == 0 {
      assert w == parent && j == 0;
    } else if w == parent && j == 0 {
      assert false;
    } else {
      OneListAt(s.vnodes, u, if u == parent then i - 1 else i, w, if w == parent then j - 1 else j);
    }
  }

  lemma OneListOf(s: State)
    requires Sound(s)
    ensures OneList(s.vnodes)
  {
  }

  lemma OneListAt(vnodes: Vnodes, u: nat, i: nat, w: nat, j: nat)
    requires OneList(vnodes) && u in vnodes && w in vnodes && i < |vnodes[u].child| && j < |vnodes[w].child|
    requires vnodes[u].child[i].id == vnodes[w].child[j].id
    ensures u == w && i == j
  {
    assert SameLink(vnodes, u, i, w, j);
  }

  lemma MakingRooted(s: State, parent: nat, link: Link)
    requires Rooted(s.vnodes, s.holders) && parent in s.vnodes && Unused(s, link)
    requires s.vnodes[parent].driver.Some? && s.vnodes[parent].driver.value in s.drivers
    ensures Rooted(Made(s, parent, link).vnodes, Made(s, parent, link).holders)
  {
    var now := Made(s, parent, link);
    forall g | g in now.holders && g.ByLink? ensures HasDirectory(now.vnodes, g.link) {
      if g == ByLink(link.id) {
        assert now.vnodes[parent].child[0].id == g.link;
      } else {
        assert HasDirectory(s.vnodes, g.link);
        var u, i :| u in s.vnodes && 0 <= i < |s.vnodes[u].child| && s.vnodes[u].child[i].id == g.link;
        assert now.vnodes[u].child[if u == parent then i + 1 else i].id == g.link;
      }
    }
  }

  lemma MakingDrivers(s: State, parent: nat, link: Link)
    requires Driven(s.vnodes, s.drivers, s.owned) && parent in s.vnodes && parent != ROOT && Unused(s, link)
    requires s.vnodes[parent].driver.Some? && s.vnodes[parent].driver.value in s.drivers
    ensures var now := Made(s, parent, link); Driven(now.vnodes, now.drivers, now.owned)
  {
    var now := Made(s, parent, link);
    forall e | e in now.drivers ensures DriverExact(now.vnodes, now.drivers, now.owned, e) {
      hide Driven;
      MakingDriverCount(s, parent, link, e);
    }
  }

  lemma MadeVnodesOf(s: State, parent: nat, link: Link, e: nat)
    requires parent in s.vnodes && Unused(s, link)
    requires s.vnodes[parent].driver.Some? && s.vnodes[parent].driver.value in s.drivers
    ensures |VnodesOf(Made(s, parent, link).vnodes, e)| ==
              |VnodesOf(s.vnodes, e)| + if s.vnodes[parent].driver == Some(e) then 1 else 0
  {
    hide Made, Unused;
    var now := Made(s, parent, link).vnodes;
    forall u ensures u in VnodesOf(now, e) <==>
                       u in VnodesOf(s.vnodes, e) || (u == link.vnode && s.vnodes[parent].driver == Some(e))
    {
      MadeAt(s, parent, link, u);
    }
    MadeAt(s, parent, link, link.vnode);
    if s.vnodes[parent].driver == Some(e) {
      assert VnodesOf(now, e) == VnodesOf(s.vnodes, e) + {link.vnode};
    } else {
      assert VnodesOf(now, e) == VnodesOf(s.vnodes, e);
    }
  }

  lemma MakingDriverCount(s: State, parent: nat, link: Link, e: nat)
    requires Driven(s.vnodes, s.drivers, s.owned) && parent in s.vnodes && Unused(s, link) && e in s.drivers
    requires s.vnodes[parent].driver.Some? && s.vnodes[parent].driver.value in s.drivers
    ensures var now := Made(s, parent, link); e in now.drivers && DriverExact(now.vnodes, now.drivers, now.owned, e)
  {
    assert DriverExact(s.vnodes, s.drivers, s.owned, e);
    MadeVnodesOf(s, parent, link, e);
    hide VnodesOf, Driven;
  }

  function Unlinked(s: State, parent: nat, i: nat): State
    requires parent in s.vnodes && i < |s.vnodes[parent].child|
  {
    var list := s.vnodes[parent].child;
    s.(vnodes := s.vnodes[parent := s.vnodes[parent].(child := list[..i] + list[i + 1..])],
       holders := s.holders - {ByLink(list[i].id)})
  }

  /** tmpfs_unlink up to the release of the vnode */
  lemma UnlinkKeeps(s: State, parent: nat, i: nat)
    requires Sound(s) && parent in s.vnodes && i < |s.vnodes[parent].child|
    ensures var link := s.vnodes[parent].child[i];
            && ByLink(link.id) in s.holders && s.holders[ByLink(link.id)] == link.vnode
            && link.vnode in s.vnodes && link.vnode !in {ROOT}
            && Inv(Unlinked(s, parent, i), {ROOT}, Some(link.vnode), {})
  {
    hide Targets, Counted, Listed, OneList, Rooted, Mounted, Opened, Driven;
    var link := s.vnodes[parent].child[i];
    HeldLinkOf(s, parent, i);
    UnlinkRest(s, parent, i);
    CountedWithout(s, ByLink(link.id), {ROOT});
    UnlinkCounts(s, parent, i);
    UnlinkLists(s, parent, i);
    UnlinkOneList(s, parent, i);
    UnlinkRooted(s, parent, i);
    UnlinkDrivers(s, parent, i);
  }

  lemma HeldLinkOf(s: State, parent: nat, i: nat)
    requires Sound(s) && parent in s.vnodes && i < |s.vnodes[parent].child|
    ensures IsHeldLink(s.vnodes, s.holders, parent, i) && s.vnodes[parent].child[i].vnode !in {ROOT}
  {
    RootHasNoLinks(s);
    assert IsHeldLink(s.vnodes, s.holders, parent, i);
  }

  lemma UnlinkedNames(s: State, parent: nat, i: nat, next: nat)
    requires Named(s, next) && parent in s.vnodes && i < |s.vnodes[parent].child|
    ensures Named(Unlinked(s, parent, i), next)
  {
  }

  lemma UnlinkRest(s: State, parent: nat, i: nat)
    requires Sound(s) && parent in s.vnodes && i < |s.vnodes[parent].child|
    ensures var now := Unlinked(s, parent, i);
            && Targets(now.vnodes, now.holders, {ROOT}) && Mounted(now.vnodes, now.holders, {})
            && Opened(now.files, now.roots, now.holders)
  {
    hide Targets, Counted, Listed, OneList, Rooted, Mounted, Driven;
    UnlinkTargets(s, parent, i);
    UnlinkMounts(s, parent, i);
  }

  lemma UnlinkTargets(s: State, parent: nat, i: nat)
    requires Targets(s.vnodes, s.holders, {ROOT}) && parent in s.vnodes && i < |s.vnodes[parent].child|
    ensures Targets(Unlinked(s, parent, i).vnodes, Unlinked(s, parent, i).holders, {ROOT})
  {
  }

  lemma UnlinkMounts(s: State, parent: nat, i: nat)
    requires Mounted(s.vnodes, s.holders, {}) && parent in s.vnodes && i < |s.vnodes[parent].child|
    ensures Mounted(Unlinked(s, parent, i).vnodes, Unlinked(s, parent, i).holders, {})
  {
  }

  lemma UnlinkCounts(s: State, parent: nat, i: nat)
    requires parent in s.vnodes && i < |s.vnodes[parent].child|
    requires var link := s.vnodes[parent].child[i];
             Counted(s.vnodes, s.holders - {ByLink(link.id)}, {ROOT}, Some(link.vnode))
    ensures var now := Unlinked(s, parent, i);
            Counted(now.vnodes, now.holders, {ROOT}, Some(s.vnodes[parent].child[i].vnode))
  {
    hide Count;
    var now := Unlinked(s, parent, i);
    forall u | u in now.vnodes
      ensures CountExact(now.vnodes, now.holders, {ROOT}, Some(s.vnodes[parent].child[i].vnode), u)
    {
      assert CountExact(s.vnodes, now.holders, {ROOT}, Some(s.vnodes[parent].child[i].vnode), u);
    }
  }

  lemma UnlinkLists(s: State, parent: nat, i: nat)
    requires Listed(s.vnodes, s.holders, {ROOT}) && OneList(s.vnodes) && parent in s.vnodes
    requires i < |s.vnodes[parent].child|
    ensures var now := Unlinked(s, parent, i); Listed(now.vnodes, now.holders, {ROOT})
  {
    var now := Unlinked(s, parent, i);
    forall u, j | u in now.vnodes && u !in {ROOT} && 0 <= j < |now.vnodes[u].child|
      ensures IsHeldLink(now.vnodes, now.holders, u, j)
    {
      var k := if u == parent && j >= i then j + 1 else j;
      assert IsHeldLink(s.vnodes, s.holders, u, k);
      assert SameLink(s.vnodes, u, k, parent, i) ==> u == parent && k == i;
    }
  }

  lemma UnlinkOneList(s: State, parent: nat, i: nat)
    requires OneList(s.vnodes) && parent in s.vnodes && i < |s.vnodes[parent].child|
    ensures OneList(Unlinked(s, parent, i).vnodes)
  {
    var now := Unlinked(s, parent, i).vnodes;
    forall u, a: nat, w, b: nat | u in now && w in now && a < |now[u].child| && b < |now[w].child| &&
             SameLink(now, u, a, w, b)
      ensures u == w && a == b
    {
      assert SameLink(s.vnodes, u, if u == parent && a >= i then a + 1 else a,
                      w, if w == parent && b >= i then b + 1 else b);
    }
  }

  lemma UnlinkRooted(s: State, parent: nat, i: nat)
    requires Rooted(s.vnodes, s.holders) && parent in s.vnodes && i < |s.vnodes[parent].child|
    ensures var now := Unlinked(s, parent, i); Rooted(now.vnodes, now.holders)
  {
    var now := Unlinked(s, parent, i);
    forall g | g in now.holders && g.ByLink? ensures HasDirectory(now.vnodes, g.link) {
      assert HasDirectory(s.vnodes, g.link);
      var u, k :| u in s.vnodes && 0 <= k < |s.vnodes[u].child| && s.vnodes[u].child[k].id == g.link;
      assert now.vnodes[u].child[if u == parent && k > i then k - 1 else k].id == g.link;
    }
  }

  lemma UnlinkDrivers(s: State, parent: nat, i: nat)
    requires Driven(s.vnodes, s.drivers, s.owned) && parent in s.vnodes && i < |s.vnodes[parent].child|
    ensures Driven(Unlinked(s, parent, i).vnodes, s.drivers, s.owned)
  {
    var now := Unlinked(s, parent, i).vnodes;
    forall d | d in s.drivers ensures DriverExact(now, s.drivers, s.owned, d) {
      assert DriverExact(s.vnodes, s.drivers, s.owned, d);
      assert VnodesOf(now, d) == VnodesOf(s.vnodes, d);
    }
  }

  // ----- a new file system

  function Founded(s: State, d: nat, root: nat): State {
    s.(vnodes := s.vnodes[root := Vnode(1, [], None, Some(d))], drivers := s.drivers[d := 2],
       roots := s.roots[d := root], owned := s.owned + {d}, holders := s.holders[ByRoot(d) := root])
  }

  /** tmpfs_create */
  lemma FoundingKeeps(s: State, d: nat, root: nat)
    requires Sound(s) && d !in s.drivers && d !in s.roots && root !in s.vnodes && root != ROOT
    requires ByMount(root) !in s.holders
    ensures Sound(Founded(s, d, root))
  {
    hide Targets, Counted, Listed, OneList, Rooted, Mounted, Opened, Driven, Founded;
    FoundingRest(s, d, root);
    FoundingCounts(s, d, root);
    FoundingLists(s, d, root);
    FoundingDrivers(s, d, root);
  }

  lemma FoundingNames(s: State, next: nat)
    requires Named(s, next)
    ensures next !in s.drivers && next !in s.roots && next + 1 !in s.vnodes && ByMount(next + 1) !in s.holders
    ensures Named(Founded(s, next, next + 1), next + 2)
  {
  }

  lemma FoundingRest(s: State, d: nat, root: nat)
    requires Sound(s) && d !in s.roots && root !in s.vnodes && root != ROOT && ByMount(root) !in s.holders
    ensures ByRoot(d) !in s.holders
    ensures var now := Founded(s, d, root);
            && Targets(now.vnodes, now.holders, {ROOT}) && Mounted(now.vnodes, now.holders, {})
            && Opened(now.files, now.roots, now.holders)
  {
    hide Targets, Counted, Listed, OneList, Rooted, Mounted, Driven;
    FoundingMounts(s, d, root);
    FoundingTargets(s, d, root);
  }

  lemma FoundingTargets(s: State, d: nat, root: nat)
    requires Targets(s.vnodes, s.holders, {ROOT}) && root != ROOT
    ensures Targets(Founded(s, d, root).vnodes, Founded(s, d, root).holders, {ROOT})
  {
  }

  lemma FoundingMounts(s: State, d: nat, root: nat)
    requires Mounted(s.vnodes, s.holders, {}) && root !in s.vnodes && ByMount(root) !in s.holders
    ensures Mounted(Founded(s, d, root).vnodes, Founded(s, d, root).holders, {})
  {
  }

  lemma FoundingCounts(s: State, d: nat, root: nat)
    requires Counted(s.vnodes, s.holders, {ROOT}, None) && Targets(s.vnodes, s.holders, {ROOT})
    requires ByRoot(d) !in s.holders && root !in s.vnodes && root != ROOT
    ensures var now := Founded(s, d, root); Counted(now.vnodes, now.holders, {ROOT}, None)
  {
    hide Count;
    var now := Founded(s, d, root);
    NotHeld(s.holders, root);
    forall u | u in now.vnodes ensures CountExact(now.vnodes, now.holders, {ROOT}, None, u) {
      assert u != root ==> CountExact(s.vnodes, s.holders, {ROOT}, None, u);
      CountAfterAdding(s.holders, ByRoot(d), root, u);
    }
  }

  lemma FoundingLists(s: State, d: nat, root: nat)
    requires Listed(s.vnodes, s.holders, {ROOT}) && OneList(s.vnodes) && Rooted(s.vnodes, s.holders)
    requires root !in s.vnodes
    ensures var now := Founded(s, d, root);
            Listed(now.vnodes, now.holders, {ROOT}) && OneList(now.vnodes) && Rooted(now.vnodes, now.holders)
  {
    var now := Founded(s, d, root);
    forall u, i | u in now.vnodes && u !in {ROOT} && 0 <= i < |now.vnodes[u].child|
      ensures IsHeldLink(now.vnodes, now.holders, u, i)
    {
      assert IsHeldLink(s.vnodes, s.holders, u, i);
    }
    forall u, i, w, j | u in now.vnodes && w in now.vnodes && 0 <= i < |now.vnodes[u].child| &&
                        0 <= j < |now.vnodes[w].child| && SameLink(now.vnodes, u, i, w, j)
      ensures u == w && i == j
    {
      assert SameLink(s.vnodes, u, i, w, j);
    }
    forall g | g in now.holders && g.ByLink? ensures HasDirectory(now.vnodes, g.link) {
      assert HasDirectory(s.vnodes, g.link);
      var u, i :| u in s.vnodes && 0 <= i < |s.vnodes[u].child| && s.vnodes[u].child[i].id == g.link;
      assert now.vnodes[u].child[i].id == g.link;
    }
  }

  lemma FoundingDrivers(s: State, d: nat, root: nat)
    requires Driven(s.vnodes, s.drivers, s.owned) && d !in s.drivers && root !in s.vnodes && root != ROOT
    ensures var now := Founded(s, d, root); Driven(now.vnodes, now.drivers, now.owned)
  {
    var now := Founded(s, d, root);
    assert VnodesOf(now.vnodes, d) == {root};
    forall e | e in now.drivers ensures DriverExact(now.vnodes, now.drivers, now.owned, e) {
      if e != d {
        assert DriverExact(s.vnodes, s.drivers, s.owned, e);
        assert VnodesOf(now.vnodes, e) == VnodesOf(s.vnodes, e);
      }
    }
  }

  // ----- chains of mounts

  /** A rank that falls along every mount: no chain of mounts returns to where it was. */
  ghost predicate Falls(vnodes: Vnodes, rank: map<nat, nat>) {
    forall v :: v in vnodes ==> v in rank && StepFalls(vnodes, rank, v)
  }

  ghost predicate StepFalls(vnodes: Vnodes, rank: map<nat, nat>, v: nat)
    requires v in vnodes && v in rank
  {
    vnodes[v].mount.Some? ==>
      vnodes[v].mount.value in vnodes && vnodes[v].mount.value in rank && rank[vnodes[v].mount.value] < rank[v]
  }

  ghost predicate Grounded(vnodes: Vnodes) {
    exists rank :: Falls(vnodes, rank)
  }

  /** Where the chain of mounts from a vnode ends. */
  ghost function Top(vnodes: Vnodes, rank: map<nat, nat>, v: nat): (e: nat)
    requires Falls(vnodes, rank) && v in vnodes
    ensures e in vnodes && vnodes[e].mount == None
    decreases rank[v]
  {
    assert StepFalls(vnodes, rank, v);
    if vnodes[v].mount == None then v else Top(vnodes, rank, vnodes[v].mount.value)
  }

  /** The vnode on the chain on which the last file system is mounted. */
  ghost function LastMount(vnodes: Vnodes, rank: map<nat, nat>, v: nat): (e: nat)
    requires Falls(vnodes, rank) && v in vnodes && vnodes[v].mount.Some?
    ensures e in vnodes && vnodes[e].mount == Some(Top(vnodes, rank, v))
    decreases rank[v]
  {
    assert StepFalls(vnodes, rank, v);
    var m := vnodes[v].mount.value;
    if vnodes[m].mount == None then v else LastMount(vnodes, rank, m)
  }

  /** A vnode is on the chain. */
  ghost predicate OnChain(vnodes: Vnodes, rank: map<nat, nat>, v: nat, w: nat)
    requires Falls(vnodes, rank) && v in vnodes
    decreases rank[v]
  {
    assert StepFalls(vnodes, rank, v);
    v == w || (vnodes[v].mount.Some? && OnChain(vnodes, rank, vnodes[v].mount.value, w))
  }

  function Attached(vnodes: Vnodes, e: nat, root: nat): Vnodes
    requires e in vnodes
  {
    vnodes[e := vnodes[e].(mount := Some(root))]
  }

  /** Mounting at the end of a chain leaves all chains finite exactly if the chain of what
      is mounted ends elsewhere. */
  lemma AttachGroundedIff(vnodes: Vnodes, rank: map<nat, nat>, e: nat, root: nat)
    requires Falls(vnodes, rank) && e in vnodes && vnodes[e].mount == None && root in vnodes
    ensures Grounded(Attached(vnodes, e, root)) <==> Top(vnodes, rank, root) != e
  {
    if Top(vnodes, rank, root) != e {
      var higher := map v | v in vnodes :: if Top(vnodes, rank, v) == e then rank[v] + rank[root] + 1 else rank[v];
      HigherFalls(vnodes, rank, higher, e, root);
    } else {
      forall r | Falls(Attached(vnodes, e, root), r) ensures false {
        RankAlong(vnodes, rank, e, root, r, root);
      }
    }
  }

  lemma HigherFalls(vnodes: Vnodes, rank: map<nat, nat>, higher: map<nat, nat>, e: nat, root: nat)
    requires Falls(vnodes, rank) && e in vnodes && vnodes[e].mount == None && root in vnodes
    requires Top(vnodes, rank, root) != e
    requires higher == map v | v in vnodes :: if Top(vnodes, rank, v) == e then rank[v] + rank[root] + 1 else rank[v]
    ensures Falls(Attached(vnodes, e, root), higher)
  {
    var now := Attached(vnodes, e, root);
    forall v | v in now ensures StepFalls(now, higher, v) {
      assert StepFalls(vnodes, rank, v);
    }
  }

  /** Along a chain that ends at e, where the chain goes on to root: every rank is above root's. */
  lemma {:induction false} RankAlong(vnodes: Vnodes, rank: map<nat, nat>, e: nat, root: nat, r: map<nat, nat>, v: nat)
    requires Falls(vnodes, rank) && e in vnodes && vnodes[e].mount == None && root in vnodes && v in vnodes
    requires Top(vnodes, rank, v) == e && Falls(Attached(vnodes, e, root), r)
    ensures r[root] < r[v]
    decreases rank[v]
  {
    assert StepFalls(vnodes, rank, v);
    assert StepFalls(Attached(vnodes, e, root), r, v);
    if v != e {
      RankAlong(vnodes, rank, e, root, r, vnodes[v].mount.value);
    }
  }

  lemma MountsInside(s: State)
    requires Sound(s)
    ensures forall v :: v in s.vnodes && s.vnodes[v].mount.Some? ==> s.vnodes[v].mount.value in s.vnodes
  {
    NothingInUseIsFreed(s);
  }

  lemma FallsAfter(was: Vnodes, now: Vnodes, rank: map<nat, nat>)
    requires Falls(was, rank)
    requires forall v :: v in now ==> v in was && (now[v].mount == was[v].mount || now[v].mount == None)
    requires forall v :: v in now && now[v].mount.Some? ==> now[v].mount.value in now
    ensures Falls(now, rank)
  {
    forall v | v in now ensures v in rank && StepFalls(now, rank, v) {
      assert StepFalls(was, rank, v);
    }
  }

  /** The counts do not matter to the chains. */
  lemma MountedChains(vnodes: Vnodes, rank: map<nat, nat>, e: nat, root: nat)
    requires Falls(vnodes, rank) && e in vnodes && vnodes[e].mount == None && root in vnodes && e != root
    ensures var now := Attached(vnodes[root := vnodes[root].(refcount := vnodes[root].refcount + 1)], e, root);
            Grounded(now) <==> Top(vnodes, rank, root) != e
  {
    var raised := vnodes[root := vnodes[root].(refcount := vnodes[root].refcount + 1)];
    var now, plain := Attached(raised, e, root), Attached(vnodes, e, root);
    AttachGroundedIff(vnodes, rank, e, root);
    forall r ensures Falls(now, r) <==> Falls(plain, r) {
      SameMounts(now, plain, r);
      SameMounts(plain, now, r);
    }
  }

  lemma SameMounts(a: Vnodes, b: Vnodes, r: map<nat, nat>)
    requires a.Keys == b.Keys && forall v :: v in a ==> a[v].mount == b[v].mount
    ensures Falls(a, r) ==> Falls(b, r)
  {
    if Falls(a, r) {
      forall v | v in b ensures v in r && StepFalls(b, r, v) {
        assert StepFalls(a, r, v);
      }
    }
  }
}
