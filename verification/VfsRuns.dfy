/** What a release frees, which mounts are lost with it, and what that does to the counts over
    whole runs of vfs.c and tmpfs.c. */
module VfsRuns {
  import opened Basics
  import opened VfsRefs
  import opened VfsSteps

  // ----- the links form trees

  ghost predicate SameTarget(vnodes: Vnodes, u: nat, i: nat, w: nat, j: nat)
    requires u in vnodes && i < |vnodes[u].child| && w in vnodes && j < |vnodes[w].child|
  {
    vnodes[u].child[i].vnode == vnodes[w].child[j].vnode
  }

  /** A link leads to a vnode made after its directory, and no other link leads there. */
  ghost predicate Treelike(vnodes: Vnodes) {
    && (forall u, i :: u in vnodes && 0 <= i < |vnodes[u].child| ==> u < vnodes[u].child[i].vnode)
    && (forall u, i, w, j ::
          (u in vnodes && w in vnodes && 0 <= i < |vnodes[u].child| && 0 <= j < |vnodes[w].child| &&
           SameTarget(vnodes, u, i, w, j)) ==> u == w && i == j)
  }

  /** w is in the list of u. */
  ghost predicate IsChild(vnodes: Vnodes, u: nat, w: nat) {
    u in vnodes && exists i :: 0 <= i < |vnodes[u].child| && vnodes[u].child[i].vnode == w
  }

  /** A way down the links on which every vnode has one reference. */
  ghost predicate SoleChain(vnodes: Vnodes, path: seq<nat>) {
    && |path| > 0
    && (forall i :: 0 <= i < |path| ==> path[i] in vnodes && vnodes[path[i]].refcount == 1)
    && (forall i :: 0 <= i < |path| - 1 ==> IsChild(vnodes, path[i], path[i + 1]))
  }

  /** Such a way leads from v to e. */
  ghost predicate OnlyThrough(vnodes: Vnodes, v: nat, e: nat) {
    exists path :: SoleChain(vnodes, path) && path[0] == v && path[|path| - 1] == e
  }

  // ----- which vnodes a release frees

  /** What vfs_unref of v does once its holder has let go: it only lets links go and frees vnodes,
      and ends with counts that are exact again.  That the recursion of the source does end so is
      not said here but proved of the code, as the contract of Vfs.Vfs.Unref. */
  ghost predicate Releases(was: State, v: nat, now: State, loose: set<nat>) {
    && Inv(was, {ROOT}, Some(v), loose) && v in was.vnodes && v != ROOT
    && Inv(now, {ROOT}, None, loose) && Released(was, now, {ROOT}, was.vnodes[v].driver)
  }

  /** The parts of the invariant, one at a time. */
  lemma CountOf(s: State, unheld: set<nat>, surplus: Option<nat>, loose: set<nat>, v: nat)
    requires Inv(s, unheld, surplus, loose) && v in s.vnodes
    ensures CountExact(s.vnodes, s.holders, unheld, surplus, v)
  {
  }

  lemma HolderOf(s: State, unheld: set<nat>, loose: set<nat>, v: nat) returns (h: Holder)
    requires Inv(s, unheld, None, loose) && v in s.vnodes && v !in unheld
    ensures h in s.holders && s.holders[h] == v
  {
    CountOf(s, unheld, None, loose, v);
    NotHeld(s.holders, v);
    h :| h in s.holders && s.holders[h] == v;
  }

  lemma OneHolder(holders: Holders, v: nat, h: Holder, g: Holder)
    requires Count(holders, v) <= 1 && h in holders && g in holders && holders[h] == v && holders[g] == v
    ensures h == g
  {
    var held := Held(holders, v);
    assert h in held && g in held;
    SubsetSize({h, g}, held);
    assert h != g ==> |{h, g}| == 2;
  }

  lemma LinkOf(s: State, surplus: Option<nat>, loose: set<nat>, u: nat, i: nat)
    requires Inv(s, {ROOT}, surplus, loose) && u in s.vnodes && i < |s.vnodes[u].child|
    ensures u != ROOT && IsHeldLink(s.vnodes, s.holders, u, i) && s.vnodes[u].child[i].vnode != ROOT
  {
    hide Counted, OneList, Rooted, Mounted, Opened;
  }

  /** A link that holds something after a release is in a list that is left. */
  lemma LinkIsLeft(was: State, v: nat, now: State, loose: set<nat>, link: nat, u: nat, i: nat)
    requires Releases(was, v, now, loose) && ByLink(link) in now.holders
    requires u in was.vnodes && i < |was.vnodes[u].child| && was.vnodes[u].child[i].id == link
    ensures u in now.vnodes
  {
    hide Counted, Listed, Targets, Mounted, Opened, Driven, OnlyLinks, Fewer, OthersStay;
    assert HasDirectory(now.vnodes, link);
    var x, k :| x in now.vnodes && 0 <= k < |now.vnodes[x].child| && now.vnodes[x].child[k].id == link;
    assert SameLink(was.vnodes, x, k, u, i);
  }

  lemma HoldersWere(was: State, v: nat, now: State, loose: set<nat>)
    requires Releases(was, v, now, loose)
    ensures Fewer(was.holders, now.holders) && OnlyCounts(was.vnodes, now.vnodes) && now.owned == was.owned
  {
    hide Inv;
  }

  /** Nothing holds v any more. */
  lemma ReleasedIsFreed(was: State, v: nat, now: State, loose: set<nat>)
    requires Releases(was, v, now, loose) && was.vnodes[v].refcount == 1
    ensures v !in now.vnodes
  {
    HoldersWere(was, v, now, loose);
    CountOf(was, {ROOT}, Some(v), loose, v);
    NotHeld(was.holders, v);
    hide Inv, Released;
    if v in now.vnodes {
      var h := HolderOf(now, {ROOT}, loose, v);
      assert false;
    }
  }

  /** A vnode with one reference goes with its directory. */
  lemma ChildIsFreed(was: State, v: nat, now: State, loose: set<nat>, u: nat, w: nat)
    requires Releases(was, v, now, loose) && u !in now.vnodes
    requires IsChild(was.vnodes, u, w) && w in was.vnodes && was.vnodes[w].refcount == 1
    ensures w !in now.vnodes
  {
    HoldersWere(was, v, now, loose);
    hide Inv, Released, Count;
    if w in now.vnodes {
      var i :| 0 <= i < |was.vnodes[u].child| && was.vnodes[u].child[i].vnode == w;
      LinkOf(was, Some(v), loose, u, i);
      CountOf(was, {ROOT}, Some(v), loose, w);
      var h := HolderOf(now, {ROOT}, loose, w);
      OneHolder(was.holders, w, h, ByLink(was.vnodes[u].child[i].id));
      LinkIsLeft(was, v, now, loose, was.vnodes[u].child[i].id, u, i);
      assert false;
    }
  }

  lemma {:induction false} ChainIsFreed(was: State, v: nat, now: State, loose: set<nat>, path: seq<nat>)
    requires Releases(was, v, now, loose) && SoleChain(was.vnodes, path) && path[0] == v
    ensures path[|path| - 1] !in now.vnodes
  {
    hide Inv, Released;
    var n := |path| - 1;
    if n == 0 {
      ReleasedIsFreed(was, v, now, loose);
    } else {
      ChainIsFreed(was, v, now, loose, path[..n]);
      assert IsChild(was.vnodes, path[n - 1], path[n - 1 + 1]);
      ChildIsFreed(was, v, now, loose, path[n - 1], path[n]);
    }
  }

  /** What held a freed vnode before was a link in the list of a freed vnode. */
  lemma HolderIsFreed(was: State, v: nat, now: State, loose: set<nat>, e: nat, h: Holder) returns (u: nat, i: nat)
    requires Releases(was, v, now, loose) && e in was.vnodes && e !in now.vnodes
    requires h in was.holders && was.holders[h] == e
    ensures h.ByLink? && u in was.vnodes && u !in now.vnodes && i < |was.vnodes[u].child|
    ensures was.vnodes[u].child[i].id == h.link && was.vnodes[u].child[i].vnode == e
  {
    hide Counted, Rooted, Mounted, Opened, Driven, OthersStay, OneList;
    assert h !in now.holders;
    assert InLists(was.vnodes, h.link, {ROOT});
    u, i :| u in was.vnodes && u !in {ROOT} && 0 <= i < |was.vnodes[u].child| && was.vnodes[u].child[i].id == h.link;
    assert IsHeldLink(was.vnodes, was.holders, u, i);
    if u in now.vnodes {
      LinkOf(now, None, loose, u, i);
      assert false;
    }
  }

  lemma FreedIsCounted(was: State, v: nat, now: State, loose: set<nat>, e: nat)
    requires Releases(was, v, now, loose) && e in was.vnodes && e !in now.vnodes
    ensures e != ROOT && was.vnodes[e].refcount == Count(was.holders, e) + (if e == v then 1 else 0) > 0
  {
    hide Count;
    CountOf(was, {ROOT}, Some(v), loose, e);
    hide Inv;
    assert e != ROOT;
  }

  lemma SoleHolder(holders: Holders, v: nat, h: Holder)
    requires h in holders && holders[h] == v && forall g :: g in holders && holders[g] == v ==> g == h
    ensures Count(holders, v) == 1
  {
    assert Held(holders, v) == {h};
  }

  lemma OneLinkTo(vnodes: Vnodes, u: nat, i: nat, w: nat, j: nat)
    requires Treelike(vnodes) && u in vnodes && w in vnodes && i < |vnodes[u].child| && j < |vnodes[w].child|
    ensures u < vnodes[u].child[i].vnode
    ensures vnodes[u].child[i].vnode == vnodes[w].child[j].vnode ==> u == w && i == j
  {
    assert SameTarget(vnodes, u, i, w, j) ==> u == w && i == j;
  }

  lemma ChainFurther(vnodes: Vnodes, v: nat, u: nat, i: nat, e: nat)
    requires OnlyThrough(vnodes, v, u) && e in vnodes && vnodes[e].refcount == 1
    requires u in vnodes && i < |vnodes[u].child| && vnodes[u].child[i].vnode == e
    ensures OnlyThrough(vnodes, v, e)
  {
    var path :| SoleChain(vnodes, path) && path[0] == v && path[|path| - 1] == u;
    var longer := path + [e];
    forall i | 0 <= i < |longer| - 1 ensures IsChild(vnodes, longer[i], longer[i + 1]) {
      assert i < |path| - 1 ==> IsChild(vnodes, path[i], path[i + 1]);
    }
    assert SoleChain(vnodes, longer);
  }

  lemma AtItself(vnodes: Vnodes, v: nat)
    requires v in vnodes && vnodes[v].refcount == 1
    ensures OnlyThrough(vnodes, v, v)
  {
    assert SoleChain(vnodes, [v]);
  }

  /** It was the only one. */
  lemma FreedHasDirectory(was: State, v: nat, now: State, loose: set<nat>, e: nat) returns (u: nat, i: nat)
    requires Releases(was, v, now, loose) && Treelike(was.vnodes) && e in was.vnodes && e !in now.vnodes
    requires Count(was.holders, e) > 0
    ensures Count(was.holders, e) == 1 && u in was.vnodes && u !in now.vnodes && u < e
    ensures i < |was.vnodes[u].child| && was.vnodes[u].child[i].vnode == e
  {
    hide Inv, Released, Count, Treelike;
    NotHeld(was.holders, e);
    var h :| h in was.holders && was.holders[h] == e;
    u, i := HolderIsFreed(was, v, now, loose, e, h);
    OneLinkTo(was.vnodes, u, i, u, i);
    forall g | g in was.holders && was.holders[g] == e ensures g == h {
      var w, j := HolderIsFreed(was, v, now, loose, e, g);
      OneLinkTo(was.vnodes, u, i, w, j);
    }
    SoleHolder(was.holders, e, h);
  }

  /** A freed vnode is reached from v through vnodes with one reference. */
  lemma {:induction false} FreedHasChain(was: State, v: nat, now: State, loose: set<nat>, e: nat)
    requires Releases(was, v, now, loose) && Treelike(was.vnodes) && e in was.vnodes && e !in now.vnodes
    ensures v <= e && OnlyThrough(was.vnodes, v, e) && was.vnodes[e].refcount == 1
    decreases e
  {
    hide Inv, Released, Releases, Count, Treelike, SoleChain, OnlyThrough;
    FreedIsCounted(was, v, now, loose, e);
    if Count(was.holders, e) == 0 {
      AtItself(was.vnodes, e);
    } else {
      var u, i := FreedHasDirectory(was, v, now, loose, e);
      FreedHasChain(was, v, now, loose, u);
      ChainFurther(was.vnodes, v, u, i, e);
    }
  }

  /** Exactly: a release of v frees the vnodes that can only be reached through v. */
  lemma FreedIff(was: State, v: nat, now: State, loose: set<nat>, e: nat)
    requires Releases(was, v, now, loose) && Treelike(was.vnodes) && e in was.vnodes
    ensures e !in now.vnodes <==> OnlyThrough(was.vnodes, v, e)
  {
    hide Inv, Released;
    if e !in now.vnodes {
      FreedHasChain(was, v, now, loose, e);
    }
    if OnlyThrough(was.vnodes, v, e) {
      var path :| SoleChain(was.vnodes, path) && path[0] == v && path[|path| - 1] == e;
      ChainIsFreed(was, v, now, loose, path);
    }
  }

  /** A vnode with other references only loses one. */
  lemma ReleaseOfShared(was: State, v: nat, now: State, loose: set<nat>)
    requires Releases(was, v, now, loose) && Treelike(was.vnodes) && was.vnodes[v].refcount != 1
    ensures now.vnodes == Lowered(was, v).vnodes && now.holders == was.holders
  {
    HoldersWere(was, v, now, loose);
    hide Inv, Released, Treelike, Fewer, OnlyCounts;
    forall e | e in was.vnodes ensures e in now.vnodes {
      SharedStays(was, v, now, loose, e);
    }
    forall h | h in was.holders ensures h in now.holders {
      HolderIsLeft(was, v, now, loose, h);
    }
    NoneFewer(was.holders, now.holders);
    forall e | e in was.vnodes
      ensures now.vnodes[e].refcount == was.vnodes[e].refcount - if e == v then 1 else 0
    {
      CountIsLeft(was, v, now, loose, e);
    }
    OneCountLess(was, now, v);
  }

  lemma OneCountLess(was: State, now: State, v: nat)
    requires OnlyCounts(was.vnodes, now.vnodes) && v in was.vnodes && forall e :: e in was.vnodes ==> e in now.vnodes
    requires forall e :: e in was.vnodes ==>
               now.vnodes[e].refcount == was.vnodes[e].refcount - if e == v then 1 else 0
    ensures now.vnodes == Lowered(was, v).vnodes
  {
  }

  lemma NoneFewer(was: Holders, now: Holders)
    requires Fewer(was, now) && forall h :: h in was ==> h in now
    ensures now == was
  {
  }

  lemma SharedStays(was: State, v: nat, now: State, loose: set<nat>, e: nat)
    requires Releases(was, v, now, loose) && Treelike(was.vnodes) && was.vnodes[v].refcount != 1 && e in was.vnodes
    ensures e in now.vnodes
  {
    FreedIff(was, v, now, loose, e);
  }

  lemma CountIsLeft(was: State, v: nat, now: State, loose: set<nat>, e: nat)
    requires Releases(was, v, now, loose) && now.holders == was.holders && e in was.vnodes && e in now.vnodes
    ensures now.vnodes[e].refcount == was.vnodes[e].refcount - if e == v then 1 else 0
  {
    hide Count;
    CountOf(was, {ROOT}, Some(v), loose, e);
    CountOf(now, {ROOT}, None, loose, e);
    hide Inv;
  }

  /** A link in the list of a vnode that is left, and every other reference, holds on. */
  lemma HolderIsLeft(was: State, v: nat, now: State, loose: set<nat>, h: Holder)
    requires Releases(was, v, now, loose) && h in was.holders
    requires forall e :: e in was.vnodes && was.vnodes[e].child != [] ==> e in now.vnodes
    ensures h in now.holders
  {
    hide Counted, Rooted, Mounted, Opened, Driven, OthersStay, OneList;
    if h !in now.holders {
      assert InLists(was.vnodes, h.link, {ROOT});
      var u, i :| u in was.vnodes && u !in {ROOT} && 0 <= i < |was.vnodes[u].child| &&
            was.vnodes[u].child[i].id == h.link;
      LinkOf(now, None, loose, u, i);
      assert false;
    }
  }

  // ----- mounts on vnodes that are no more

  /** Mounts whose vnode was freed: nothing can take them back. */
  function Leaked(s: State): set<Holder> {
    set h | h in s.holders && h.ByMount? && h.mountpoint !in s.vnodes
  }

  /** The references to a vnode that a program can find. */
  function References(s: State, v: nat): nat {
    |LinksTo(s.vnodes, v)| + |MountsOn(s.vnodes, v)| + |FilesOn(s.files, v)| + |RootsOn(s.roots, v)|
  }

  /** Every count is the number of these references exactly if no mount leaked. */
  lemma CountedIffNoneLeaked(s: State)
    requires Sound(s)
    ensures Leaked(s) == {} <==> forall v :: v in s.vnodes ==> s.vnodes[v].refcount == References(s, v)
  {
    hide LinksTo, MountsOn, FilesOn, RootsOn, Sound;
    forall v | v in s.vnodes
      ensures s.vnodes[v].refcount == References(s, v) + |LeakedMounts(s.vnodes, s.holders, v)|
      ensures LeakedMounts(s.vnodes, s.holders, v) <= Leaked(s)
    {
      CountIsReferences(s, v);
    }
    forall h | h in Leaked(s)
      ensures s.holders[h] in s.vnodes && s.vnodes[s.holders[h]].refcount > References(s, s.holders[h])
    {
      var v := s.holders[h];
      TargetOf(s, h);
      assert h in LeakedMounts(s.vnodes, s.holders, v);
      CountIsReferences(s, v);
    }
  }

  lemma TargetOf(s: State, h: Holder)
    requires Sound(s) && h in s.holders
    ensures s.holders[h] in s.vnodes && s.holders[h] != ROOT
  {
  }

  /** A release leaks the mounts on the vnodes it frees, and no other. */
  lemma ReleaseLeaks(was: State, v: nat, now: State, loose: set<nat>)
    requires Releases(was, v, now, loose)
    ensures Leaked(now) == Leaked(was) +
              set u | u in was.vnodes && u !in now.vnodes && u !in loose && was.vnodes[u].mount.Some? :: ByMount(u)
  {
    hide Counted, Listed, OneList, Rooted, Driven, Opened, Targets, OthersStay;
    forall h | h in Leaked(was) || (h.ByMount? && h.mountpoint in was.vnodes)
      ensures h in was.holders ==> h in now.holders
    {
    }
  }

  /** The same for the mounts of one vnode. */
  lemma ReleaseLeaksOf(was: State, v: nat, now: State, loose: set<nat>, w: nat)
    requires Releases(was, v, now, loose)
    ensures LeakedMounts(now.vnodes, now.holders, w) == LeakedMounts(was.vnodes, was.holders, w) +
              set u | u in was.vnodes && u !in now.vnodes && u !in loose && was.vnodes[u].mount == Some(w) :: ByMount(u)
  {
    hide Counted, Listed, OneList, Rooted, Driven, Opened, Targets, OthersStay;
    forall h | h in LeakedMounts(was.vnodes, was.holders, w) || (h.ByMount? && h.mountpoint in was.vnodes)
      ensures h in was.holders ==> h in now.holders
    {
    }
  }

  // ----- operations as steps between states

  /** A call that changes the state, with the vnodes it works on; of mount and unmount, the vnode
      at the end of the chain of mounts whose field is written. */
  datatype Op =
    | OpenOp(vnode: nat, file: nat)
    | CloseOp(file: nat)
    | CreateOp(parent: nat, link: Link)
    | UnlinkOp(parent: nat, place: nat)
    | CreateFsOp(fs: nat, root: nat)
    | DestroyOp(fs: nat)
    | MountOp(mountpoint: nat, root: nat)
    | UnmountOp(mountpoint: nat)
  {
    predicate LetsGo() {
      CloseOp? || UnlinkOp? || DestroyOp? || UnmountOp?
    }

    /** The mount field that is cleared after the release. */
    function Loose(): set<nat> {
      if UnmountOp? then {mountpoint} else {}
    }
  }

  ghost predicate Applies(s: State, op: Op) {
    match op
    case OpenOp(v, f) => v in s.vnodes && v != ROOT && f !in s.files
    case CloseOp(f) => f in s.files
    case CreateOp(p, link) => p in s.vnodes && p != ROOT && Unused(s, link) && p < link.vnode
    case UnlinkOp(p, i) =>
      p in s.vnodes && i < |s.vnodes[p].child| && s.vnodes[p].child[i].vnode in s.vnodes &&
      s.vnodes[s.vnodes[p].child[i].vnode].child == []
    case CreateFsOp(d, root) =>
      d !in s.drivers && d !in s.roots && root !in s.vnodes && root != ROOT && ByMount(root) !in s.holders
    case DestroyOp(d) => d in s.roots && d in s.owned
    case MountOp(e, root) => e in s.vnodes && s.vnodes[e].mount == None && root in s.vnodes && root != ROOT && e != root
    case UnmountOp(e) => e in s.vnodes && s.vnodes[e].mount.Some?
  }

  /** The vnode that is released, and the state in which its holder has let go. */
  function Target(s: State, op: Op): nat
    requires Applies(s, op) && op.LetsGo()
  {
    match op
    case CloseOp(f) => s.files[f]
    case UnlinkOp(p, i) => s.vnodes[p].child[i].vnode
    case DestroyOp(d) => s.roots[d]
    case UnmountOp(e) => s.vnodes[e].mount.value
  }

  function LetGo(s: State, op: Op): State
    requires Applies(s, op) && op.LetsGo()
  {
    match op
    case CloseOp(f) => s.(files := s.files - {f}, holders := s.holders - {ByFile(f)})
    case UnlinkOp(p, i) => Unlinked(s, p, i)
    case DestroyOp(d) => s.(roots := s.roots - {d}, holders := s.holders - {ByRoot(d)})
    case UnmountOp(e) => s.(holders := s.holders - {ByMount(e)})
  }

  /** What is left to do after the release. */
  function Finished(mid: State, op: Op): State {
    match op
    case DestroyOp(d) => if d in mid.drivers then Disowned(mid, d) else mid
    case UnmountOp(e) => Cleared(mid, e)
    case _ => mid
  }

  ghost predicate IsStep(s: State, op: Op, t: State) {
    && Applies(s, op)
    && match op
       case OpenOp(v, f) => t == Raised(s, v, ByFile(f)).(files := s.files[f := v])
       case CreateOp(p, link) =>
         s.vnodes[p].driver.Some? && s.vnodes[p].driver.value in s.drivers && t == Made(s, p, link)
       case CreateFsOp(d, root) => t == Founded(s, d, root)
       case MountOp(e, root) =>
         var raised := Raised(s, root, ByMount(e)); t == raised.(vnodes := Attached(raised.vnodes, e, root))
       case _ => exists mid :: Releases(LetGo(s, op), Target(s, op), mid, op.Loose()) && t == Finished(mid, op)
  }

  /** The operation frees this vnode; counts and links of the state before tell. */
  ghost predicate Frees(s: State, op: Op, e: nat) {
    Applies(s, op) && op.LetsGo() && OnlyThrough(LetGo(s, op).vnodes, Target(s, op), e)
  }

  /** Something is mounted on no vnode that the operation frees. */
  ghost predicate Clean(s: State, op: Op) {
    forall e :: e in s.vnodes && e !in op.Loose() && Frees(s, op, e) ==> s.vnodes[e].mount == None
  }

  lemma TreelikeWithin(was: Vnodes, now: Vnodes)
    requires Treelike(was)
    requires forall v :: v in now ==> v in was && (now[v].child == was[v].child || now[v].child == [])
    ensures Treelike(now)
  {
    forall u, i, w, j | u in now && w in now && 0 <= i < |now[u].child| && 0 <= j < |now[w].child| &&
             SameTarget(now, u, i, w, j)
      ensures u == w && i == j
    {
      assert SameTarget(was, u, i, w, j);
    }
  }

  lemma TreelikeUnlinked(s: State, p: nat, i: nat)
    requires Treelike(s.vnodes) && p in s.vnodes && i < |s.vnodes[p].child|
    ensures Treelike(Unlinked(s, p, i).vnodes)
  {
    var was, now := s.vnodes, Unlinked(s, p, i).vnodes;
    forall u, j | u in now && 0 <= j < |now[u].child| ensures u < now[u].child[j].vnode {
      assert now[u].child[j] == was[u].child[if u == p && j >= i then j + 1 else j];
    }
    forall u, j, w, k | u in now && w in now && 0 <= j < |now[u].child| && 0 <= k < |now[w].child| &&
             SameTarget(now, u, j, w, k)
      ensures u == w && j == k
    {
      OneLinkTo(was, u, if u == p && j >= i then j + 1 else j, w, if w == p && k >= i then k + 1 else k);
    }
  }

  /** Where a link was before another was put in front of a list. */
  function PlaceBefore(p: nat, u: nat, j: nat): nat {
    if u == p && j > 0 then j - 1 else j
  }

  lemma LinkBefore(s: State, p: nat, link: Link, u: nat, j: nat)
    requires Sound(s) && p in s.vnodes && p != ROOT && Unused(s, link)
    requires s.vnodes[p].driver.Some? && s.vnodes[p].driver.value in s.drivers
    requires var now := Made(s, p, link).vnodes; u in now && j < |now[u].child| && !(u == p && j == 0)
    ensures u in s.vnodes && PlaceBefore(p, u, j) < |s.vnodes[u].child|
    ensures Made(s, p, link).vnodes[u].child[j] == s.vnodes[u].child[PlaceBefore(p, u, j)]
    ensures s.vnodes[u].child[PlaceBefore(p, u, j)].vnode != link.vnode
  {
    hide Inv;
    LinkOf(s, None, {}, u, PlaceBefore(p, u, j));
  }

  lemma TreelikeMade(s: State, p: nat, link: Link)
    requires Sound(s) && Treelike(s.vnodes) && p in s.vnodes && p != ROOT && Unused(s, link) && p < link.vnode
    requires s.vnodes[p].driver.Some? && s.vnodes[p].driver.value in s.drivers
    ensures Treelike(Made(s, p, link).vnodes)
  {
    var was, now := s.vnodes, Made(s, p, link).vnodes;
    assert now[p].child[0] == link;
    hide Sound, Made, Unused;
    forall u, j | u in now && 0 <= j < |now[u].child| ensures u < now[u].child[j].vnode {
      if u != p || j > 0 {
        LinkBefore(s, p, link, u, j);
        OneLinkTo(was, u, PlaceBefore(p, u, j), u, PlaceBefore(p, u, j));
      }
    }
    forall u, j, w, k | u in now && w in now && 0 <= j < |now[u].child| && 0 <= k < |now[w].child| &&
             SameTarget(now, u, j, w, k)
      ensures u == w && j == k
    {
      OneLinkMade(s, p, link, u, j, w, k);
    }
  }

  lemma OneLinkMade(s: State, p: nat, link: Link, u: nat, j: nat, w: nat, k: nat)
    requires Sound(s) && Treelike(s.vnodes) && p in s.vnodes && p != ROOT && Unused(s, link)
    requires s.vnodes[p].driver.Some? && s.vnodes[p].driver.value in s.drivers
    requires var now := Made(s, p, link).vnodes;
             && u in now && j < |now[u].child| && w in now && k < |now[w].child|
             && now[u].child[j].vnode == now[w].child[k].vnode
    ensures u == w && j == k
  {
    assert Made(s, p, link).vnodes[p].child[0] == link;
    hide Sound, Made, Unused, Treelike;
    if u != p || j > 0 {
      LinkBefore(s, p, link, u, j);
    }
    if w != p || k > 0 {
      LinkBefore(s, p, link, w, k);
    }
    if !(u == p && j == 0) && !(w == p && k == 0) {
      OneLinkTo(s.vnodes, u, PlaceBefore(p, u, j), w, PlaceBefore(p, w, k));
    }
  }

  /** Up to the release, counts, links and the trees are in order. */
  lemma LetGoKeeps(s: State, op: Op)
    requires Sound(s) && Treelike(s.vnodes) && Applies(s, op) && op.LetsGo()
    ensures Inv(LetGo(s, op), {ROOT}, Some(Target(s, op)), op.Loose()) && Treelike(LetGo(s, op).vnodes)
    ensures Target(s, op) in s.vnodes && Target(s, op) != ROOT && LetGo(s, op).vnodes.Keys == s.vnodes.Keys
    ensures forall v :: v in s.vnodes ==> LetGo(s, op).vnodes[v].mount == s.vnodes[v].mount
  {
    hide Sound, Inv, Treelike, Unused;
    match op
    case CloseOp(f) => CloseKeeps(s, f);
    case UnlinkOp(p, i) => UnlinkKeeps(s, p, i); TreelikeUnlinked(s, p, i);
    case DestroyOp(d) => DestroyKeeps(s, d);
    case UnmountOp(e) => UnmountKeeps(s, e);
  }

  /** Every operation keeps the counts exact and the links trees. */
  lemma StepKeeps(s: State, op: Op, t: State)
    requires Sound(s) && Treelike(s.vnodes) && IsStep(s, op, t)
    ensures Sound(t) && Treelike(t.vnodes)
  {
    hide Inv, Treelike, Released, Unused, Made, Founded;
    match op
    case OpenOp(v, f) => OpenKeeps(s, v, f); TreelikeWithin(s.vnodes, t.vnodes);
    case CreateOp(p, link) => MakingKeeps(s, p, link); TreelikeMade(s, p, link);
    case CreateFsOp(d, root) => FoundingKeeps(s, d, root); TreelikeFounded(s, d, root);
    case MountOp(e, root) => MountKeeps(s, e, root); TreelikeWithin(s.vnodes, t.vnodes);
    case _ =>
      LetGoKeeps(s, op);
      var mid :| Releases(LetGo(s, op), Target(s, op), mid, op.Loose()) && t == Finished(mid, op);
      HoldersWere(LetGo(s, op), Target(s, op), mid, op.Loose());
      TreelikeWithin(LetGo(s, op).vnodes, t.vnodes);
      FinishedKeeps(mid, op);
  }

  /** A release, and what is left to do after it, make a step. */
  lemma StepDone(s: State, op: Op, mid: State)
    requires Sound(s) && Treelike(s.vnodes) && Applies(s, op) && op.LetsGo()
    requires Releases(LetGo(s, op), Target(s, op), mid, op.Loose())
    ensures IsStep(s, op, Finished(mid, op)) && Sound(Finished(mid, op)) && Treelike(Finished(mid, op).vnodes)
  {
    hide Sound, Treelike, Releases, Applies;
    StepKeeps(s, op, Finished(mid, op));
  }

  lemma TreelikeFounded(s: State, d: nat, root: nat)
    requires Treelike(s.vnodes) && root !in s.vnodes
    ensures Treelike(Founded(s, d, root).vnodes)
  {
    var was, now := s.vnodes, Founded(s, d, root).vnodes;
    forall u, i, w, j | u in now && w in now && 0 <= i < |now[u].child| && 0 <= j < |now[w].child| &&
             SameTarget(now, u, i, w, j)
      ensures u == w && i == j
    {
      OneLinkTo(was, u, i, w, j);
    }
  }

  lemma FinishedKeeps(mid: State, op: Op)
    requires op.LetsGo() && Inv(mid, {ROOT}, None, op.Loose())
    requires op.DestroyOp? ==> op.fs in mid.owned
    ensures Sound(Finished(mid, op))
  {
    hide Inv;
    match op
    case DestroyOp(d) => DisownedKeeps(mid, d);
    case UnmountOp(e) => ClearedMountKeeps(mid, e);
    case _ =>
  }

  /** Which vnodes an operation frees is settled before it: those that can only be reached
      through the one it releases. */
  lemma StepFreesIff(s: State, op: Op, t: State, e: nat)
    requires Sound(s) && Treelike(s.vnodes) && IsStep(s, op, t) && e in s.vnodes
    ensures e !in t.vnodes <==> Frees(s, op, e)
  {
    hide Inv, Treelike, Released, Unused, OnlyThrough;
    if op.LetsGo() {
      LetGoKeeps(s, op);
      var mid :| Releases(LetGo(s, op), Target(s, op), mid, op.Loose()) && t == Finished(mid, op);
      FreedIff(LetGo(s, op), Target(s, op), mid, op.Loose(), e);
    }
  }

  /** The mounts an operation leaks, seen afterwards. */
  function NewLeaks(s: State, op: Op, t: State): set<Holder> {
    set u | u in s.vnodes && u !in t.vnodes && u !in op.Loose() && s.vnodes[u].mount.Some? :: ByMount(u)
  }

  lemma StepLeaks(s: State, op: Op, t: State)
    requires Sound(s) && Treelike(s.vnodes) && IsStep(s, op, t)
    ensures Leaked(t) == Leaked(s) + NewLeaks(s, op, t)
  {
    hide Inv, Treelike, Releases, Applies, Leaked, LetGo, Finished;
    if op.LetsGo() {
      var mid :| Releases(LetGo(s, op), Target(s, op), mid, op.Loose()) && t == Finished(mid, op);
      LetGoKeeps(s, op);
      ReleaseLeaks(LetGo(s, op), Target(s, op), mid, op.Loose());
      LetGoLeaks(s, op);
      FinishedLeaks(mid, op);
      assert NewLeaks(s, op, t) == NewLeaks(LetGo(s, op), op, mid);
    } else {
      OtherLeaks(s, op, t);
    }
  }

  lemma OtherLeaks(s: State, op: Op, t: State)
    requires IsStep(s, op, t) && !op.LetsGo()
    ensures Leaked(t) == Leaked(s) && NewLeaks(s, op, t) == {}
  {
  }

  lemma LetGoLeaks(s: State, op: Op)
    requires Applies(s, op) && op.LetsGo()
    ensures Leaked(LetGo(s, op)) == Leaked(s)
  {
  }

  lemma FinishedLeaks(mid: State, op: Op)
    ensures Leaked(Finished(mid, op)) == Leaked(mid)
    ensures Finished(mid, op).vnodes.Keys == mid.vnodes.Keys
  {
  }

  /** An operation leaks no mount exactly if it frees no vnode something is mounted on, but for
      the mountpoint of an unmount; and what leaked once stays so. */
  lemma StepLeaksIff(s: State, op: Op, t: State)
    requires Sound(s) && Treelike(s.vnodes) && IsStep(s, op, t)
    ensures Leaked(s) <= Leaked(t) && (Leaked(t) == Leaked(s) <==> Clean(s, op))
  {
    hide Inv, Treelike, Applies, IsStep, Frees;
    forall e | e in s.vnodes ensures e !in t.vnodes <==> Frees(s, op, e) {
      StepFreesIff(s, op, t, e);
    }
    StepLeaks(s, op, t);
    if Clean(s, op) {
      assert NewLeaks(s, op, t) == {};
    } else {
      var e :| e in s.vnodes && e !in op.Loose() && Frees(s, op, e) && s.vnodes[e].mount.Some?;
      assert ByMount(e) in NewLeaks(s, op, t) && ByMount(e) !in Leaked(s);
    }
  }

  // ----- whole runs

  /** What vfs_init makes: the vnode other file systems are mounted on, which nothing counts. */
  const START: State := State(map[ROOT := Vnode(0, [], None, None)], map[], map[], map[], {}, map[])

  ghost predicate IsRun(states: seq<State>, ops: seq<Op>) {
    && |states| == |ops| + 1 && states[0] == START
    && forall k :: 0 <= k < |ops| ==> IsStep(states[k], ops[k], states[k + 1])
  }

  lemma StartIsSound()
    ensures Sound(START) && Treelike(START.vnodes) && Leaked(START) == {}
  {
    assert Held(START.holders, ROOT) == {};
  }

  /** Over every run the counts stay exact, and no mount is lost exactly if each operation was clean. */
  lemma {:induction false} RunKeeps(states: seq<State>, ops: seq<Op>)
    requires IsRun(states, ops)
    ensures Sound(states[|ops|]) && Treelike(states[|ops|].vnodes)
    ensures Leaked(states[|ops|]) == {} <==> forall k :: 0 <= k < |ops| ==> Clean(states[k], ops[k])
    decreases |ops|
  {
    hide Sound, Treelike, IsStep, Clean, Leaked;
    if ops == [] {
      StartIsSound();
    } else {
      var n := |ops| - 1;
      RunKeeps(states[..n + 1], ops[..n]);
      assert IsStep(states[n], ops[n], states[n + 1]);
      StepKeeps(states[n], ops[n], states[n + 1]);
      StepLeaksIff(states[n], ops[n], states[n + 1]);
    }
  }

  /** Conservation: over a run from vfs_init on, each count is the number of links, mounts, open
      files and root fields that lead to the vnode exactly if no operation freed a vnode
      something was mounted on. */
  lemma RunCountsIff(states: seq<State>, ops: seq<Op>)
    requires IsRun(states, ops)
    ensures var s := states[|ops|];
            (forall v :: v in s.vnodes ==> s.vnodes[v].refcount == References(s, v)) <==>
            (forall k :: 0 <= k < |ops| ==> Clean(states[k], ops[k]))
  {
    hide Sound, Treelike, IsStep, Clean, Leaked, References;
    RunKeeps(states, ops);
    CountedIffNoneLeaked(states[|ops|]);
  }

  /** tmpfs_unlink frees its vnode exactly if the link was the only reference, and so leaks
      exactly if something was mounted there. */
  lemma UnlinkIsCleanIff(s: State, p: nat, i: nat)
    requires Sound(s) && Treelike(s.vnodes) && Applies(s, UnlinkOp(p, i))
    ensures var v := s.vnodes[p].child[i].vnode;
            && (forall e :: e in s.vnodes ==> (Frees(s, UnlinkOp(p, i), e) <==> e == v && s.vnodes[v].refcount == 1))
            && (Clean(s, UnlinkOp(p, i)) <==> !(s.vnodes[v].refcount == 1 && s.vnodes[v].mount.Some?))
  {
    var v, mid := s.vnodes[p].child[i].vnode, LetGo(s, UnlinkOp(p, i));
    OneLinkTo(s.vnodes, p, i, p, i);
    assert mid.vnodes[v] == s.vnodes[v];
    hide Sound, Treelike, OnlyThrough;
    forall e | e in s.vnodes ensures OnlyThrough(mid.vnodes, v, e) <==> e == v && s.vnodes[v].refcount == 1 {
      OnlyItself(mid.vnodes, v, e);
    }
  }

  /** What tmpfs_unlink leaves: the list without one link, the vnode unless that was its only
      reference, and everything else. */
  lemma UnlinkLeaves(s: State, p: nat, i: nat, t: State)
    requires Sound(s) && Treelike(s.vnodes) && IsStep(s, UnlinkOp(p, i), t)
    ensures var links := s.vnodes[p].child; var v := links[i].vnode;
            && (forall e :: e in s.vnodes ==> (e !in t.vnodes <==> e == v && s.vnodes[v].refcount == 1))
            && p in t.vnodes && t.vnodes[p].child == links[..i] + links[i + 1..]
            && (forall e :: e in t.vnodes ==> e in s.vnodes && LeftBy(s.vnodes[e], t.vnodes[e], e == p, e == v))
  {
    hide Sound, Treelike, Frees, Clean, Releases;
    var v, mid := s.vnodes[p].child[i].vnode, LetGo(s, UnlinkOp(p, i));
    UnlinkIsCleanIff(s, p, i);
    forall e | e in s.vnodes ensures e !in t.vnodes <==> Frees(s, UnlinkOp(p, i), e) {
      StepFreesIff(s, UnlinkOp(p, i), t, e);
    }
    assert Releases(mid, v, t, {});
    ReleasesOnly(mid, v, t);
  }

  /** A vnode after an unlink: its mount and driver, its list unless it is the directory, and its
      count unless it is the vnode that was linked to. */
  predicate LeftBy(was: Vnode, now: Vnode, directory: bool, target: bool) {
    && now.mount == was.mount && now.driver == was.driver && (!directory ==> now.child == was.child)
    && now.refcount == was.refcount - if target then 1 else 0
  }

  /** A release that frees no directory takes no other count away. */
  lemma ReleasesOnly(was: State, v: nat, now: State)
    requires Releases(was, v, now, {})
    requires forall e :: e in was.vnodes && was.vnodes[e].child != [] ==> e in now.vnodes
    ensures forall e :: e in now.vnodes ==>
              && e in was.vnodes && now.vnodes[e].child == was.vnodes[e].child
              && LeftBy(was.vnodes[e], now.vnodes[e], false, e == v)
  {
    HoldersWere(was, v, now, {});
    hide Inv, Released, Fewer, OnlyCounts;
    forall h | h in was.holders ensures h in now.holders {
      HolderIsLeft(was, v, now, {}, h);
    }
    NoneFewer(was.holders, now.holders);
    forall e | e in now.vnodes
      ensures e in was.vnodes && now.vnodes[e].child == was.vnodes[e].child
      ensures LeftBy(was.vnodes[e], now.vnodes[e], false, e == v)
    {
      OnlyCountsAt(was.vnodes, now.vnodes, e);
      CountIsLeft(was, v, now, {}, e);
    }
  }

  lemma OnlyCountsAt(was: Vnodes, now: Vnodes, e: nat)
    requires OnlyCounts(was, now) && e in now
    ensures e in was && now[e].child == was[e].child && now[e].mount == was[e].mount && now[e].driver == was[e].driver
  {
  }

  lemma OnlyItself(vnodes: Vnodes, v: nat, e: nat)
    requires v in vnodes && vnodes[v].child == []
    ensures OnlyThrough(vnodes, v, e) <==> e == v && vnodes[v].refcount == 1
  {
    if OnlyThrough(vnodes, v, e) {
      var path :| SoleChain(vnodes, path) && path[0] == v && path[|path| - 1] == e;
      assert |path| > 1 ==> IsChild(vnodes, path[0], path[0 + 1]);
    }
    if e == v && vnodes[v].refcount == 1 {
      assert SoleChain(vnodes, [v]);
    }
  }
}
