/** kernel/src/vfs/vfs.c and tmpfs.c: references taken, dropped and released recursively. */
module Vfs {
  import opened Basics
  import opened VfsRefs
  import opened VfsSteps
  import opened VfsRuns

  class Vfs {
    var vnodes: Vnodes
    /** The reference counts of the drivers that have not been cleaned up. */
    var drivers: map<nat, int>
    /** The vnode of each open file, and the root of each tmpfs not yet destroyed. */
    var files: map<nat, nat>
    var roots: map<nat, nat>
    /** A name for the next allocation. */
    var next: nat
    /** The drivers whose file system still counts itself, and all references there are. */
    ghost var owned: set<nat>
    ghost var holders: Holders

    ghost function S(): State
      reads this
    {
      State(vnodes, drivers, files, roots, owned, holders)
    }

    ghost predicate Valid()
      reads this
    {
      Sound(S()) && Named(S(), next) && Treelike(vnodes) && owned == roots.Keys
    }

    /** vfs_init: the vnode other file systems are mounted on, which is never counted. */
    constructor ()
      ensures Valid() && S() == START
    {
      vnodes := map[ROOT := Vnode(0, [], None, None)];
      drivers, files, roots := map[], map[], map[];
      next := ROOT + 1;
      owned, holders := {}, map[];
      new;
      StartIsSound();
    }

    /** vfs_driver_unref */
    method DriverUnref(d: nat)
      requires d in drivers
      modifies this`drivers
      ensures drivers == WithoutOne(old(drivers), d)
    {
      drivers := drivers[d := drivers[d] - 1];
      if drivers[d] > 0 {
        return;
      }
      drivers := drivers - {d};
    }

    /** vfs_unref of a vnode one of whose holders has let go. */
    method Unref(v: nat, ghost unheld: set<nat>, ghost loose: set<nat>)
      requires Inv(S(), unheld, Some(v), loose) && v in vnodes && v !in unheld
      modifies this`vnodes, this`drivers, this`holders
      ensures Inv(S(), unheld, None, loose)
      ensures Released(old(S()), S(), unheld, old(vnodes)[v].driver)
      decreases holders.Keys
    {
      hide Targets, Counted, Listed, OneList, Rooted, Mounted, Opened, Driven, Released, LinksLeft, Inv;
      ghost var s0, d := S(), vnodes[v].driver;
      LoweredIsExact(s0, v, unheld, loose);
      ReleasedNothing(s0, v, unheld);
      UnrefStart(s0, v, unheld, loose);
      vnodes := vnodes[v := vnodes[v].(refcount := vnodes[v].refcount - 1)];
      if vnodes[v].refcount > 0 {
        return;
      }
      var driver := vnodes[v].driver;
      var links := vnodes[v].child;
      var i := 0;
      while i < |links|
        invariant i <= |links| && files == s0.files && roots == s0.roots && owned == s0.owned
        invariant Inv(S(), unheld + {v}, None, loose)
        invariant Released(s0, S(), unheld, d)
        invariant LinksLeft(S(), v, links, i, d)
      {
        ghost var s := S();
        InvTargets(s, unheld + {v}, loose);
        NextLink(s0, s, v, links, i, d, unheld, loose);
        holders := holders - {ByLink(links[i].id)};
        Unref(links[i].vnode, unheld + {v}, loose);
        ReleasedThen(s0, s.(holders := s.holders - {ByLink(links[i].id)}), S(), unheld, unheld + {v}, d);
        InvTargets(S(), unheld + {v}, loose);
        LinksAfter(s, S(), v, links, i, d, unheld + {v});
        i := i + 1;
      }
      LastLink(S(), v, links, driver, unheld, loose);
      ReleasedVnode(s0, S(), v, WithoutOne(drivers, driver.value), unheld, d);
      vnodes := vnodes - {v};
      DriverUnref(driver.value);
    }

    /** vfs_ref */
    method Ref(v: nat)
      requires v in vnodes
      requires vnodes[v].refcount <= 0 && vnodes[v].driver.Some? ==> vnodes[v].driver.value in drivers
      modifies this`vnodes, this`drivers
      ensures vnodes == old(vnodes)[v := old(vnodes)[v].(refcount := old(vnodes)[v].refcount + 1)]
      ensures old(vnodes)[v].refcount > 0 || old(vnodes)[v].driver == None ==> drivers == old(drivers)
      ensures old(vnodes)[v].refcount <= 0 && old(vnodes)[v].driver.Some? ==>
                var d := old(vnodes)[v].driver.value; drivers == old(drivers)[d := old(drivers)[d] + 1]
    {
      if vnodes[v].refcount <= 0 && vnodes[v].driver.Some? {
        drivers := drivers[vnodes[v].driver.value := drivers[vnodes[v].driver.value] + 1];
      }
      vnodes := vnodes[v := vnodes[v].(refcount := vnodes[v].refcount + 1)];
    }

    /** tmpfs_open */
    method Open(v: nat) returns (file: nat)
      requires Valid() && v in vnodes && v != ROOT
      modifies this
      ensures Valid() && file !in old(files) && files == old(files)[file := v]
      ensures S() == Raised(old(S()), v, ByFile(file)).(files := files)
      ensures vnodes == old(vnodes)[v := old(vnodes)[v].(refcount := old(vnodes)[v].refcount + 1)]
      ensures drivers == old(drivers) && roots == old(roots)
      ensures IsStep(old(S()), OpenOp(v, file), S())
    {
      hide Inv, Treelike;
      ghost var was := S();
      file := next;
      HasReferences(S(), v);
      next := next + 1;
      Ref(v);
      files := files[file := v];
      holders := holders[ByFile(file) := v];
      StepKeeps(was, OpenOp(v, file), S());
    }

    /** tmpfs_close */
    method Close(file: nat)
      requires Valid() && file in files
      modifies this
      ensures Valid() && files == old(files) - {file} && roots == old(roots)
      ensures Released(old(S()).(files := files, holders := old(holders) - {ByFile(file)}), S(), {ROOT},
                       old(vnodes)[old(files)[file]].driver)
      ensures IsStep(old(S()), CloseOp(file), S())
    {
      hide Inv, Treelike;
      ghost var was := S();
      CloseKeeps(S(), file);
      var v := files[file];
      files := files - {file};
      holders := holders - {ByFile(file)};
      Unref(v, {ROOT}, {});
      StepDone(was, CloseOp(file), S());
    }

    /** tmpfs_createi: a vnode and a link, newest first. */
    method Create(parent: nat, name: string) returns (v: nat)
      requires Valid() && parent in vnodes && parent != ROOT
      modifies this
      ensures Valid() && v !in old(vnodes)
      ensures old(vnodes)[parent].driver.Some? && old(vnodes)[parent].driver.value in old(drivers)
      ensures S() == Made(old(S()), parent, Link(v + 1, name, v))
      ensures var was := old(vnodes)[parent];
              vnodes == old(vnodes)[v := Vnode(1, [], None, was.driver)]
                                   [parent := was.(child := [Link(v + 1, name, v)] + was.child)]
      ensures files == old(files) && roots == old(roots)
      ensures IsStep(old(S()), CreateOp(parent, Link(v + 1, name, v)), S())
    {
      hide Inv, Named, Unused, Treelike;
      ghost var was := S();
      v := next;
      var link := Link(next + 1, name, v);
      ParentHasDriver(S(), parent);
      MakingNames(S(), parent, name, next);
      NextIsHigher(S(), parent, next);
      next := next + 2;
      vnodes := vnodes[v := Vnode(0, [], None, vnodes[parent].driver)];
      Ref(v);
      WriteTwice(was.vnodes, v, Vnode(0, [], None, was.vnodes[parent].driver),
                 Vnode(1, [], None, was.vnodes[parent].driver));
      vnodes := vnodes[parent := vnodes[parent].(child := [link] + vnodes[parent].child)];
      holders := holders[ByLink(link.id) := v];
      assert S() == Made(was, parent, link);
      StepKeeps(was, CreateOp(parent, link), S());
    }

    /** vfs_get_child_by_name: the place of the first link of a name, or the length. */
    method GetChildByName(parent: nat, name: string) returns (i: nat)
      requires parent in vnodes
      ensures i == FirstNamed(vnodes[parent].child, name)
    {
      var links := vnodes[parent].child;
      i := 0;
      while i < |links| && links[i].name != name
        invariant i <= |links| && forall j :: 0 <= j < i ==> links[j].name != name
      {
        i := i + 1;
      }
    }

    /** tmpfs_unlink */
    method Unlink(parent: nat, name: string) returns (ok: bool)
      requires Valid() && parent in vnodes
      modifies this
      ensures Valid()
      ensures var links := old(vnodes)[parent].child; var i := FirstNamed(links, name);
              && (ok <==> i < |links| && links[i].vnode in old(vnodes) && old(vnodes)[links[i].vnode].child == [])
              && (!ok ==> S() == old(S()))
              && (ok ==> Released(Unlinked(old(S()), parent, i), S(), {ROOT}, old(vnodes)[links[i].vnode].driver))
              && (ok ==> IsStep(old(S()), UnlinkOp(parent, i), S()))
              && (ok ==> parent in vnodes && vnodes[parent].child == links[..i] + links[i + 1..])
      ensures var links := old(vnodes)[parent].child; var i := FirstNamed(links, name);
              ok ==>
                && (forall e :: e in old(vnodes) ==>
                      (e !in vnodes <==> e == links[i].vnode && old(vnodes)[e].refcount == 1))
                && (forall e :: e in vnodes ==>
                      e in old(vnodes) && LeftBy(old(vnodes)[e], vnodes[e], e == parent, e == links[i].vnode))
      ensures files == old(files) && roots == old(roots)
    {
      hide Inv, Named, Released, Treelike, IsStep, LeftBy, Sound;
      ghost var before := S();
      var i := GetChildByName(parent, name);
      var links := vnodes[parent].child;
      if i == |links| {
        return false;
      }
      UnlinkKeeps(S(), parent, i);
      var target := links[i].vnode;
      if vnodes[target].child != [] {
        return false;
      }
      vnodes := vnodes[parent := vnodes[parent].(child := links[..i] + links[i + 1..])];
      holders := holders - {ByLink(links[i].id)};
      ghost var was, driver := S(), vnodes[target].driver;
      UnlinkedNames(old(S()), parent, i, next);
      Unref(target, {ROOT}, {});
      ReleasedNames(was, S(), {ROOT}, driver, next);
      ReleasedOwners(was, S(), {ROOT}, driver);
      StepDone(before, UnlinkOp(parent, i), S());
      UnlinkLeaves(before, parent, i, S());
      ok := true;
    }

    /** tmpfs_create */
    method CreateFs() returns (d: nat)
      requires Valid()
      modifies this
      ensures Valid() && d !in old(drivers) && d + 1 !in old(vnodes) && S() == Founded(old(S()), d, d + 1)
      ensures vnodes == old(vnodes)[d + 1 := Vnode(1, [], None, Some(d))] && drivers == old(drivers)[d := 2]
      ensures roots == old(roots)[d := d + 1] && files == old(files)
      ensures IsStep(old(S()), CreateFsOp(d, d + 1), S())
    {
      hide Inv, Named, Treelike, IsStep;
      ghost var was := S();
      d := next;
      FoundsStep(S(), d, d + 1);
      FoundingNames(S(), next);
      next := next + 2;
      drivers := drivers[d := 0];
      TwoReferences(d, d + 1);
      WriteTwice(was.drivers, d, 0, 2);
      roots := roots[d := d + 1];
      owned := owned + {d};
      holders := holders[ByRoot(d) := d + 1];
      assert S() == Founded(was, d, d + 1);
      StepKeeps(was, CreateFsOp(d, d + 1), S());
    }

    /** The root vnode of a new file system, counted by its driver, which its owner counts too. */
    method TwoReferences(d: nat, root: nat)
      requires d in drivers && drivers[d] == 0 && root !in vnodes
      modifies this`vnodes, this`drivers
      ensures vnodes == old(vnodes)[root := Vnode(1, [], None, Some(d))]
      ensures drivers == old(drivers)[d := 2]
    {
      vnodes := vnodes[root := Vnode(0, [], None, Some(d))];
      drivers := drivers[d := drivers[d] + 1];
      Ref(root);
    }

    /** tmpfs_destroy */
    method Destroy(d: nat)
      requires Valid() && d in roots
      modifies this
      ensures Valid() && roots == old(roots) - {d} && files == old(files)
      ensures IsStep(old(S()), DestroyOp(d), S())
    {
      hide Inv, Treelike;
      ghost var was := S();
      DestroyKeeps(S(), d);
      var root := roots[d];
      roots := roots - {d};
      holders := holders - {ByRoot(d)};
      Unref(root, {ROOT}, {});
      ghost var mid := S();
      OwnedIsDriver(S(), d);
      owned := owned - {d};
      DriverUnref(d);
      assert S() == Finished(mid, DestroyOp(d));
      StepDone(was, DestroyOp(d), mid);
    }

    /** vfs_walk: a name in the directory at the end of the chain of mounts.  The walk of the
        tmpfs driver finds nothing that is not in the list. */
    method Walk(parent: nat, name: string, ghost rank: map<nat, nat>) returns (r: Option<nat>)
      requires Falls(vnodes, rank) && parent in vnodes && Top(vnodes, rank, parent) != ROOT
      ensures var links := vnodes[Top(vnodes, rank, parent)].child;
              r == if FirstNamed(links, name) < |links| then Some(links[FirstNamed(links, name)].vnode) else None
      decreases rank[parent]
    {
      assert StepFalls(vnodes, rank, parent);
      if vnodes[parent].mount.Some? {
        r := Walk(vnodes[parent].mount.value, name, rank);
        return;
      }
      var i := GetChildByName(parent, name);
      r := if i < |vnodes[parent].child| then Some(vnodes[parent].child[i].vnode) else None;
    }

    /** vfs_open: the vnode at the end of the chain of mounts is the one that is held. */
    method OpenMounted(v: nat, ghost rank: map<nat, nat>) returns (file: nat)
      requires Valid() && Falls(vnodes, rank) && v in vnodes && Top(vnodes, rank, v) != ROOT
      modifies this
      ensures Valid() && file !in old(files) && files == old(files)[file := Top(old(vnodes), rank, v)]
      ensures S() == Raised(old(S()), Top(old(vnodes), rank, v), ByFile(file)).(files := files)
      decreases rank[v]
    {
      assert StepFalls(vnodes, rank, v);
      if vnodes[v].mount.Some? {
        file := OpenMounted(vnodes[v].mount.value, rank);
      } else {
        file := Open(v);
      }
    }

    /** vfs_mount, down the chain of mounts; rank witnesses that the chain is finite. */
    method Mount(mountpoint: nat, root: nat, ghost rank: map<nat, nat>) returns (ok: bool)
      requires Valid() && Falls(vnodes, rank) && mountpoint in vnodes && root in vnodes && root != ROOT
      modifies this
      ensures Valid()
      ensures ok <==> !OnChain(old(vnodes), rank, mountpoint, root)
      ensures !ok ==> S() == old(S())
      ensures ok ==> var e := Top(old(vnodes), rank, mountpoint);
                && IsStep(old(S()), MountOp(e, root), S())
                && vnodes == old(vnodes)[root := old(vnodes)[root].(refcount := old(vnodes)[root].refcount + 1)]
                                        [e := old(vnodes)[e].(mount := Some(root))]
                && (Grounded(vnodes) <==> Top(old(vnodes), rank, root) != e)
      decreases rank[mountpoint]
    {
      hide Inv, Treelike, Grounded, IsStep;
      assert StepFalls(vnodes, rank, mountpoint);
      if mountpoint == root {
        return false;
      }
      if vnodes[mountpoint].mount.Some? {
        ok := Mount(vnodes[mountpoint].mount.value, root, rank);
        return;
      }
      MountHere(mountpoint, root, rank);
      ok := true;
    }

    /** The end of the chain. */
    method MountHere(e: nat, root: nat, ghost rank: map<nat, nat>)
      requires Valid() && Falls(vnodes, rank) && e in vnodes && root in vnodes && root != ROOT && e != root
      requires vnodes[e].mount == None
      modifies this
      ensures Valid() && IsStep(old(S()), MountOp(e, root), S())
      ensures vnodes == old(vnodes)[root := old(vnodes)[root].(refcount := old(vnodes)[root].refcount + 1)]
                                   [e := old(vnodes)[e].(mount := Some(root))]
      ensures Grounded(vnodes) <==> Top(old(vnodes), rank, root) != e
    {
      hide Inv, Treelike, Grounded, Held;
      ghost var was := S();
      HasReferences(S(), root);
      MountedChains(vnodes, rank, e, root);
      Ref(root);
      vnodes := vnodes[e := vnodes[e].(mount := Some(root))];
      holders := holders[ByMount(e) := root];
      StepKeeps(was, MountOp(e, root), S());
    }

    /** vfs_unmount: the last mount of the chain.  The source clears the mount field after the
        release; stray says that it then writes to a vnode that the release has freed, which
        happens exactly if all references to the mountpoint come through what is mounted on it. */
    method Unmount(mountpoint: nat, ghost rank: map<nat, nat>) returns (ok: bool, stray: bool)
      requires Valid() && Falls(vnodes, rank) && mountpoint in vnodes
      modifies this
      ensures Valid() && Falls(vnodes, rank) && files == old(files) && roots == old(roots)
      ensures ok <==> old(vnodes)[mountpoint].mount.Some?
      ensures !ok ==> S() == old(S()) && !stray
      ensures ok ==> var e := LastMount(old(vnodes), rank, mountpoint);
                && IsStep(old(S()), UnmountOp(e), S())
                && ByMount(e) !in holders && (e in vnodes ==> vnodes[e].mount == None)
                && (stray <==> e !in vnodes) && (stray <==> OnlyThrough(old(vnodes), old(vnodes)[e].mount.value, e))
      decreases rank[mountpoint]
    {
      hide Inv, Treelike, OnlyThrough;
      assert StepFalls(vnodes, rank, mountpoint);
      if vnodes[mountpoint].mount == None {
        return false, false;
      }
      var m := vnodes[mountpoint].mount.value;
      ok := true;
      if vnodes[m].mount == None {
        stray := UnmountLast(mountpoint, rank);
      } else {
        ok, stray := Unmount(m, rank);
      }
    }

    method UnmountLast(e: nat, ghost rank: map<nat, nat>) returns (stray: bool)
      requires Valid() && Falls(vnodes, rank) && e in vnodes && vnodes[e].mount.Some?
      modifies this
      ensures Valid() && Falls(vnodes, rank) && files == old(files) && roots == old(roots)
      ensures IsStep(old(S()), UnmountOp(e), S())
      ensures ByMount(e) !in holders && (e in vnodes ==> vnodes[e].mount == None)
      ensures (stray <==> e !in vnodes) && (stray <==> OnlyThrough(old(vnodes), old(vnodes)[e].mount.value, e))
    {
      hide Inv, Treelike, OnlyThrough, Named, Released, Falls, IsStep;
      ghost var was := S();
      UnmountKeeps(S(), e);
      var m := vnodes[e].mount.value;
      ghost var d := vnodes[m].driver;
      holders := holders - {ByMount(e)};
      Unref(m, {ROOT}, {e});
      ghost var mid := S();
      StepDone(was, UnmountOp(e), mid);
      FreedIff(LetGo(was, UnmountOp(e)), m, mid, {e}, e);
      ReleasedOwners(LetGo(was, UnmountOp(e)), mid, {ROOT}, d);
      stray := e !in vnodes;
      if !stray {
        vnodes := vnodes[e := vnodes[e].(mount := None)];
      }
      MountCleared(was, mid, e, d, rank, next);
    }
  }

  /** What does not show in the counts after an unmount. */
  lemma MountCleared(was: State, mid: State, e: nat, d: Option<nat>, rank: map<nat, nat>, next: nat)
    requires Falls(was.vnodes, rank) && Named(was, next) && e in was.vnodes
    requires Released(was.(holders := was.holders - {ByMount(e)}), mid, {ROOT}, d) && Sound(Cleared(mid, e))
    ensures Named(Cleared(mid, e), next) && Falls(Cleared(mid, e).vnodes, rank) && ByMount(e) !in mid.holders
  {
    hide Sound, Falls, Named, OnlyLinks, OthersStay;
    MountsInside(Cleared(mid, e));
    ClearedNames(was, mid, e, d, next);
    assert forall v :: v in mid.vnodes ==> v in was.vnodes && mid.vnodes[v].mount == was.vnodes[v].mount;
    hide Released;
    FallsAfter(was.vnodes, Cleared(mid, e).vnodes, rank);
  }

  lemma ClearedNames(was: State, mid: State, e: nat, d: Option<nat>, next: nat)
    requires Named(was, next) && e in was.vnodes
    requires Released(was.(holders := was.holders - {ByMount(e)}), mid, {ROOT}, d)
    ensures Named(Cleared(mid, e), next)
  {
    ReleasedNames(was.(holders := was.holders - {ByMount(e)}), mid, {ROOT}, d, next);
    hide Released;
  }

  /** The place of the first link with a name, or the length. */
  function FirstNamed(links: seq<Link>, name: string): (i: nat)
    ensures i <= |links|
    ensures i < |links| ==> links[i].name == name
    ensures forall j :: 0 <= j < i ==> links[j].name != name
  {
    FirstIndex(links, (l: Link) => l.name == name)
  }

  lemma WriteTwice<V>(m: map<nat, V>, k: nat, a: V, b: V)
    ensures m[k := a][k := b] == m[k := b]
  {
  }

  lemma FoundsStep(s: State, d: nat, root: nat)
    requires Sound(s) && Named(s, d) && root == d + 1
    ensures IsStep(s, CreateFsOp(d, root), Founded(s, d, root))
  {
    hide Inv;
    FoundingNames(s, d);
  }

  lemma OwnedIsDriver(s: State, d: nat)
    requires Sound(s) && d in s.owned
    ensures d in s.drivers
  {
  }

  lemma ReleasedOwners(was: State, now: State, unheld: set<nat>, driver: Option<nat>)
    requires Released(was, now, unheld, driver)
    ensures now.owned == was.owned && now.roots == was.roots
  {
  }

  lemma NextIsHigher(s: State, v: nat, next: nat)
    requires Named(s, next) && v in s.vnodes
    ensures v < next
  {
  }

  lemma HasReferences(s: State, v: nat)
    requires Sound(s) && v in s.vnodes && v != ROOT
    ensures s.vnodes[v].refcount > 0
  {
    assert CountExact(s.vnodes, s.holders, {ROOT}, None, v);
  }

  lemma InvTargets(s: State, unheld: set<nat>, loose: set<nat>)
    requires Inv(s, unheld, None, loose)
    ensures Targets(s.vnodes, s.holders, unheld) && OneList(s.vnodes)
  {
  }

  lemma UnrefStart(s: State, v: nat, unheld: set<nat>, loose: set<nat>)
    requires Inv(s, unheld, Some(v), loose) && v in s.vnodes && v !in unheld
    ensures LinksLeft(Lowered(s, v), v, s.vnodes[v].child, 0, s.vnodes[v].driver)
    ensures s.vnodes[v].driver.Some? && ROOT in unheld
  {
    hide Counted, OneList, Rooted;
    LinksAtFirst(s, v, unheld);
  }

  lemma NextLink(s0: State, s: State, v: nat, links: seq<Link>, i: nat, d: Option<nat>, unheld: set<nat>,
                 loose: set<nat>)
    requires Inv(s, unheld + {v}, None, loose) && Released(s0, s, unheld, d) && LinksLeft(s, v, links, i, d)
    requires i < |links| && v in s0.vnodes && v !in unheld && s0.vnodes[v].child == links
    ensures ByLink(links[i].id) in s.holders && links[i].vnode in s.vnodes && links[i].vnode !in unheld + {v}
    ensures s.vnodes[links[i].vnode].driver == d
    ensures var now := s.(holders := s.holders - {ByLink(links[i].id)});
            Inv(now, unheld + {v}, Some(links[i].vnode), loose) && Released(s0, now, unheld, d)
    ensures s.holders.Keys <= s0.holders.Keys
  {
    InvTargets(s, unheld + {v}, loose);
    LinkIsAlone(s, v, links, i, d, unheld + {v});
    ReleasedLink(s0, s, v, i, unheld, d);
    assert forall h :: h in s.holders ==> h in s0.holders;
    hide Inv, Released;
    LinkLetsGo(s, links[i], unheld + {v}, loose);
  }

  lemma LastLink(s: State, v: nat, links: seq<Link>, driver: Option<nat>, unheld: set<nat>, loose: set<nat>)
    requires Inv(s, unheld + {v}, None, loose) && LinksLeft(s, v, links, |links|, driver) && driver.Some?
    requires v !in unheld && ROOT in unheld
    ensures driver.value in s.drivers && v in s.vnodes
    ensures Inv(Gone(s, v).(drivers := WithoutOne(s.drivers, driver.value)), unheld, None, loose)
  {
    hide Inv;
    VnodeGoes(s, v, driver.value, unheld, loose);
  }
}
