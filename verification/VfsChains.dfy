/** Chains of mounts over whole runs of vfs.c: walk, open, mount and unmount follow them and stop
    only if they end. */
module VfsChains {
  import opened Basics
  import opened VfsRefs
  import opened VfsSteps
  import opened VfsRuns

  /** A way along mount fields. */
  ghost predicate MountPath(vnodes: Vnodes, path: seq<nat>) {
    && |path| > 0 && path[0] in vnodes
    && forall i :: 0 <= i < |path| - 1 ==> IsMounted(vnodes, path[i], path[i + 1])
  }

  ghost predicate IsMounted(vnodes: Vnodes, v: nat, w: nat) {
    v in vnodes && vnodes[v].mount == Some(w)
  }

  ghost predicate LeadsTo(vnodes: Vnodes, v: nat, w: nat) {
    exists path :: MountPath(vnodes, path) && path[0] == v && path[|path| - 1] == w
  }

  /** Where chains end, such a way to an end is the chain. */
  lemma {:induction false} TopIff(vnodes: Vnodes, rank: map<nat, nat>, v: nat, e: nat)
    requires Falls(vnodes, rank) && v in vnodes && e in vnodes && vnodes[e].mount == None
    ensures Top(vnodes, rank, v) == e <==> LeadsTo(vnodes, v, e)
    decreases rank[v]
  {
    assert StepFalls(vnodes, rank, v);
    if vnodes[v].mount == None {
      assert MountPath(vnodes, [v]);
      if LeadsTo(vnodes, v, e) {
        var path :| MountPath(vnodes, path) && path[0] == v && path[|path| - 1] == e;
        assert |path| > 1 ==> IsMounted(vnodes, path[0], path[0 + 1]);
      }
    } else {
      var m := vnodes[v].mount.value;
      TopIff(vnodes, rank, m, e);
      if LeadsTo(vnodes, m, e) {
        var path :| MountPath(vnodes, path) && path[0] == m && path[|path| - 1] == e;
        LongerPath(vnodes, v, path);
      }
      if LeadsTo(vnodes, v, e) {
        var path :| MountPath(vnodes, path) && path[0] == v && path[|path| - 1] == e;
        ShorterPath(vnodes, path, m);
      }
    }
  }

  lemma LongerPath(vnodes: Vnodes, v: nat, path: seq<nat>)
    requires MountPath(vnodes, path) && IsMounted(vnodes, v, path[0])
    ensures LeadsTo(vnodes, v, path[|path| - 1])
  {
    var longer := [v] + path;
    forall i | 0 <= i < |longer| - 1 ensures IsMounted(vnodes, longer[i], longer[i + 1]) {
      assert i > 0 ==> IsMounted(vnodes, path[i - 1], path[i - 1 + 1]);
    }
    assert MountPath(vnodes, longer);
  }

  lemma ShorterPath(vnodes: Vnodes, path: seq<nat>, m: nat)
    requires MountPath(vnodes, path) && |path| > 1 && vnodes[path[0]].mount == Some(m) && m in vnodes
    ensures LeadsTo(vnodes, m, path[|path| - 1])
  {
    var shorter := path[1..];
    assert IsMounted(vnodes, path[0], path[0 + 1]);
    forall i | 0 <= i < |shorter| - 1 ensures IsMounted(vnodes, shorter[i], shorter[i + 1]) {
      assert IsMounted(vnodes, path[i + 1], path[i + 1 + 1]);
    }
    assert MountPath(vnodes, shorter);
  }

  /** A mount of something from which mounts already lead to the mountpoint. */
  ghost predicate Closes(s: State, op: Op) {
    op.MountOp? && LeadsTo(s.vnodes, op.root, op.mountpoint)
  }

  /** One operation leaves all chains finite exactly if it is no such mount. */
  lemma StepGroundedIff(s: State, op: Op, t: State)
    requires Sound(s) && Treelike(s.vnodes) && IsStep(s, op, t) && Grounded(s.vnodes)
    ensures Grounded(t.vnodes) <==> !Closes(s, op)
  {
    var rank :| Falls(s.vnodes, rank);
    StepKeeps(s, op, t);
    hide Inv, Treelike, Grounded, Falls, LeadsTo;
    if op.MountOp? {
      MountedChains(s.vnodes, rank, op.mountpoint, op.root);
      TopIff(s.vnodes, rank, op.root, op.mountpoint);
    } else {
      OtherMounts(s, op, t);
      OthersFall(s.vnodes, t, rank);
    }
  }

  /** What the other operations do to the mount fields. */
  lemma OtherMounts(s: State, op: Op, t: State)
    requires Sound(s) && Treelike(s.vnodes) && IsStep(s, op, t) && !op.MountOp?
    ensures forall v :: v in t.vnodes && t.vnodes[v].mount.Some? ==>
              v in s.vnodes && t.vnodes[v].mount == s.vnodes[v].mount
  {
    hide Inv, Treelike, Released, Unused;
    if op.LetsGo() {
      LetGoKeeps(s, op);
      var mid :| Releases(LetGo(s, op), Target(s, op), mid, op.Loose()) && t == Finished(mid, op);
      HoldersWere(LetGo(s, op), Target(s, op), mid, op.Loose());
    }
  }

  lemma OthersFall(was: Vnodes, t: State, rank: map<nat, nat>)
    requires Falls(was, rank) && Sound(t)
    requires forall v :: v in t.vnodes && t.vnodes[v].mount.Some? ==> v in was && t.vnodes[v].mount == was[v].mount
    ensures Grounded(t.vnodes)
  {
    MountsInside(t);
    hide Sound;
    var longer := map v | v in t.vnodes :: if v in rank then rank[v] else 0;
    forall v | v in t.vnodes ensures StepFalls(t.vnodes, longer, v) {
      if t.vnodes[v].mount.Some? {
        assert StepFalls(was, rank, v);
      }
    }
    assert Falls(t.vnodes, longer);
  }

  /** Over a run from vfs_init on, all chains of mounts stay finite exactly if no mount put a file
      system on the end of its own chain. */
  lemma {:induction false} RunGroundedIff(states: seq<State>, ops: seq<Op>)
    requires IsRun(states, ops)
    ensures (forall k :: 0 <= k <= |ops| ==> Grounded(states[k].vnodes)) <==>
            (forall k :: 0 <= k < |ops| ==> !Closes(states[k], ops[k]))
    decreases |ops|
  {
    hide Sound, Treelike, IsStep, Grounded, Closes;
    if ops == [] {
      StartIsGrounded();
    } else {
      var n := |ops| - 1;
      RunGroundedIff(states[..n + 1], ops[..n]);
      RunKeeps(states[..n + 1], ops[..n]);
      assert IsStep(states[n], ops[n], states[n + 1]);
      if Grounded(states[n].vnodes) {
        StepGroundedIff(states[n], ops[n], states[n + 1]);
      }
    }
  }

  lemma StartIsGrounded()
    ensures Grounded(START.vnodes)
  {
    assert Falls(START.vnodes, map[ROOT := 0]);
  }
}
