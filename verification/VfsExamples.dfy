/** States that calls of vfs.c and tmpfs.c reach from vfs_init on. */
module VfsExamples {
  import opened Basics
  import opened VfsRefs
  import opened VfsSteps
  import opened VfsRuns
  import V = Vfs

  // ----- states with at most one mount

  ghost predicate Unmounted(vnodes: Vnodes) {
    forall v :: v in vnodes ==> vnodes[v].mount == None
  }

  ghost predicate OneMount(vnodes: Vnodes, e: nat, root: nat) {
    && e in vnodes && root in vnodes && e != root && vnodes[e].mount == Some(root)
    && forall v :: v in vnodes && v != e ==> vnodes[v].mount == None
  }

  function RankOf(vnodes: Vnodes, e: nat): map<nat, nat> {
    map v | v in vnodes :: if v == e then 1 else 0
  }

  lemma UnmountedFalls(vnodes: Vnodes, e: nat)
    requires Unmounted(vnodes)
    ensures Falls(vnodes, RankOf(vnodes, e))
    ensures forall v :: v in vnodes ==> Top(vnodes, RankOf(vnodes, e), v) == v
    ensures forall v, w :: v in vnodes ==> (OnChain(vnodes, RankOf(vnodes, e), v, w) <==> v == w)
  {
  }

  lemma OneMountFalls(vnodes: Vnodes, e: nat, root: nat)
    requires OneMount(vnodes, e, root)
    ensures Falls(vnodes, RankOf(vnodes, e))
    ensures Top(vnodes, RankOf(vnodes, e), e) == root && Top(vnodes, RankOf(vnodes, e), root) == root
    ensures LastMount(vnodes, RankOf(vnodes, e), e) == e
    ensures !OnChain(vnodes, RankOf(vnodes, e), root, e)
  {
    var rank := RankOf(vnodes, e);
    forall v | v in vnodes ensures v in rank && StepFalls(vnodes, rank, v) {
    }
    assert Top(vnodes, rank, root) == root;
  }

  lemma FoundedUnmounted(s: State, d: nat, root: nat)
    requires Unmounted(s.vnodes)
    ensures Unmounted(Founded(s, d, root).vnodes)
  {
  }

  lemma MountMakesOne(s: State, e: nat, root: nat, t: State)
    requires Unmounted(s.vnodes) && IsStep(s, MountOp(e, root), t)
    ensures OneMount(t.vnodes, e, root) && t.vnodes.Keys == s.vnodes.Keys && t.roots == s.roots
    ensures forall v :: v in s.vnodes ==>
              && t.vnodes[v].child == s.vnodes[v].child
              && t.vnodes[v].refcount == s.vnodes[v].refcount + if v == root then 1 else 0
  {
  }

  // ----- a chain of mounts that returns to where it began

  method TwoFileSystems() returns (s: V.Vfs, a: nat, b: nat)
    ensures fresh(s) && s.Valid() && Unmounted(s.vnodes) && a != b && a != ROOT && b != ROOT && a in s.vnodes
    ensures b in s.vnodes
  {
    hide V.Vfs.Valid, IsStep;
    s := new V.Vfs();
    FoundedUnmounted(START, 0, 1);
    a := s.CreateFs();
    FoundedUnmounted(START, a, a + 1);
    ghost var one := s.S();
    b := s.CreateFs();
    FoundedUnmounted(one, b, b + 1);
    a, b := a + 1, b + 1;
  }

  /** The roots of two file systems mounted on each other. */
  method MountCycle() returns (s: V.Vfs)
    ensures s.Valid() && !Grounded(s.vnodes)
  {
    hide V.Vfs.Valid, IsStep, Unmounted, OneMount, Grounded, RankOf, Falls, Top, OnChain;
    var a, b;
    s, a, b := TwoFileSystems();
    ghost var none := s.S();
    UnmountedFalls(s.vnodes, a);
    var ok := s.Mount(a, b, RankOf(s.vnodes, a));
    MountMakesOne(none, a, b, s.S());
    OneMountFalls(s.vnodes, a, b);
    ok := s.Mount(b, a, RankOf(s.vnodes, a));
  }

  // ----- a directory with something mounted on it

  /** A file system with one directory in its root. */
  ghost predicate HasDirectoryIn(s: State, d: nat, r: nat, c: nat) {
    && r in s.vnodes && c in s.vnodes && r != c && r != ROOT && c != ROOT && d in s.roots && s.roots[d] == r
    && s.vnodes[r].child == [Link(c + 1, "a", c)] && s.vnodes[c].child == [] && s.vnodes[c].refcount == 1
  }

  lemma FoundedThenMade(s: State, d: nat, r: nat, c: nat)
    requires Unmounted(s.vnodes) && r !in s.vnodes && r != ROOT && c !in Founded(s, d, r).vnodes && c != ROOT
    ensures var f := Founded(s, d, r);
            && f.vnodes[r].driver == Some(d) && d in f.drivers
            && var t := Made(f, r, Link(c + 1, "a", c));
               Unmounted(t.vnodes) && HasDirectoryIn(t, d, r, c) && t.vnodes[r].refcount == 1
  {
  }

  lemma FoundedBeside(s: State, d: nat, r: nat, c: nat, e: nat, m: nat, t: State)
    requires HasDirectoryIn(s, d, r, c) && Unmounted(s.vnodes) && IsStep(s, CreateFsOp(e, m), t)
    ensures HasDirectoryIn(t, d, r, c) && Unmounted(t.vnodes) && m in t.vnodes && m != ROOT && m != c && c in t.vnodes
  {
  }

  method OneDirectory() returns (s: V.Vfs, d: nat, r: nat, c: nat)
    ensures fresh(s) && s.Valid() && Unmounted(s.vnodes) && HasDirectoryIn(s.S(), d, r, c) && s.vnodes[r].refcount == 1
  {
    hide V.Vfs.Valid, IsStep, Unmounted, HasDirectoryIn, Made, Founded;
    s := new V.Vfs();
    NothingMounted();
    d := s.CreateFs();
    r := d + 1;
    FoundedHas(START, d, r);
    c := s.Create(r, "a");
    FoundedThenMade(START, d, r, c);
  }

  lemma NothingMounted()
    ensures Unmounted(START.vnodes) && START.vnodes.Keys == {ROOT}
  {
  }

  lemma FoundedHas(s: State, d: nat, r: nat)
    ensures Founded(s, d, r).vnodes.Keys == s.vnodes.Keys + {r}
  {
  }

  /** The directory is unlinked while a file system is mounted there: the mount is lost, and the
      count of the mounted root stays above the references there are. */
  method LeakByUnlink() returns (s: V.Vfs)
    ensures s.Valid() && Leaked(s.S()) != {}
    ensures exists v :: v in s.vnodes && s.vnodes[v].refcount != References(s.S(), v)
  {
    hide V.Vfs.Valid, IsStep, Unmounted, OneMount, RankOf, Falls, Top, OnChain, HasDirectoryIn, Founded;
    var d, r, c;
    s, d, r, c := OneDirectory();
    ghost var one := s.S();
    var e := s.CreateFs();
    var m := e + 1;
    FoundedBeside(one, d, r, c, e, m, s.S());
    ghost var two := s.S();
    UnmountedFalls(s.vnodes, c);
    var ok := s.Mount(c, m, RankOf(s.vnodes, c));
    MountMakesOne(two, c, m, s.S());
    MountedDirectory(two, d, r, c, m, s.S());
    UnlinkMounted(s, d, r, c, m);
  }

  lemma MountedDirectory(s: State, d: nat, r: nat, c: nat, m: nat, t: State)
    requires HasDirectoryIn(s, d, r, c) && m in s.vnodes && m != c && t.vnodes.Keys == s.vnodes.Keys
    requires t.roots == s.roots
    requires forall v :: v in s.vnodes ==>
               && t.vnodes[v].child == s.vnodes[v].child
               && t.vnodes[v].refcount == s.vnodes[v].refcount + if v == m then 1 else 0
    ensures HasDirectoryIn(t, d, r, c)
  {
  }

  method UnlinkMounted(s: V.Vfs, d: nat, r: nat, c: nat, m: nat)
    requires s.Valid() && HasDirectoryIn(s.S(), d, r, c) && OneMount(s.vnodes, c, m)
    modifies s
    ensures s.Valid() && Leaked(s.S()) != {}
    ensures exists v :: v in s.vnodes && s.vnodes[v].refcount != References(s.S(), v)
  {
    hide Inv, Treelike, Named, IsStep, Leaked, References, Clean, Frees, Released;
    ghost var was := s.S();
    var ok := s.Unlink(r, "a");
    UnlinkIsCleanIff(was, r, 0);
    StepLeaksIff(was, UnlinkOp(r, 0), s.S());
    CountedIffNoneLeaked(s.S());
  }

  // ----- a root mounted on a vnode of its own file system

  /** Giving up the file system leaves the mount as the only reference to the root. */
  lemma DestroyLeavesMount(s: State, d: nat, r: nat, c: nat, t: State)
    requires Sound(s) && Treelike(s.vnodes) && IsStep(s, DestroyOp(d), t)
    requires HasDirectoryIn(s, d, r, c) && s.vnodes[r].refcount == 2 && OneMount(s.vnodes, c, r)
    ensures OneMount(t.vnodes, c, r) && OnlyThrough(t.vnodes, r, c)
  {
    hide Inv, Treelike, Released, OnlyThrough;
    var op := DestroyOp(d);
    LetGoKeeps(s, op);
    var mid :| Releases(LetGo(s, op), r, mid, {}) && t == Finished(mid, op);
    ReleaseOfShared(LetGo(s, op), r, mid, {});
    DirectChild(t.vnodes, r, c);
  }

  lemma DirectChild(vnodes: Vnodes, r: nat, c: nat)
    requires r in vnodes && c in vnodes && vnodes[r].refcount == 1 && vnodes[c].refcount == 1
    requires |vnodes[r].child| == 1 && vnodes[r].child[0].vnode == c
    ensures OnlyThrough(vnodes, r, c)
  {
    assert IsChild(vnodes, r, c);
    assert SoleChain(vnodes, [r, c]);
  }

  /** The unmount then releases the mountpoint along with the root, and writes to it. */
  method StrayUnmount() returns (s: V.Vfs, stray: bool)
    ensures s.Valid() && stray
  {
    hide Inv, Treelike, Named, IsStep, Unmounted, OneMount, RankOf, Falls, Top, LastMount, OnChain, HasDirectoryIn;
    hide OnlyThrough;
    var d, r, c;
    s, d, r, c := OneDirectory();
    ghost var one := s.S();
    DirectoryHas(one, d, r, c);
    UnmountedFalls(s.vnodes, c);
    var ok := s.Mount(c, r, RankOf(s.vnodes, c));
    ghost var two := s.S();
    MountMakesOne(one, c, r, two);
    MountedDirectory(one, d, r, c, r, two);
    s.Destroy(d);
    DestroyLeavesMount(two, d, r, c, s.S());
    OneMountFalls(s.vnodes, c, r);
    OneMountHas(s.vnodes, c, r);
    ok, stray := s.Unmount(c, RankOf(s.vnodes, c));
  }

  lemma DirectoryHas(s: State, d: nat, r: nat, c: nat)
    requires HasDirectoryIn(s, d, r, c)
    ensures r in s.vnodes && c in s.vnodes && r != c && r != ROOT && d in s.roots
  {
  }

  lemma OneMountHas(vnodes: Vnodes, e: nat, root: nat)
    requires OneMount(vnodes, e, root)
    ensures e in vnodes && vnodes[e].mount == Some(root)
  {
  }
}
