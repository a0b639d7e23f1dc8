/** What a cleanup run guarantees, whatever the cluster answers. */
module CleanupGuarantees {
  import opened Wrappers
  import opened Ordering
  import opened Volumes
  import opened SshSession
  import opened Cleanup

  // ----- Polling -----

  predicate StillRunning(p: Poll) {
    p.status == 200 && !p.stopped
  }

  /** An exit status that is reported as success; the empty string is one, besides "OK" and zero. */
  predicate CountsAsOk(exit: Exit) {
    exit == Text("OK") || exit == Text("0") || exit == Number(0) || exit == Text("")
  }

  predicate StoppedWell(p: Poll) {
    p.status == 200 && p.stopped && CountsAsOk(p.exit)
  }

  /** Up to poll `j` the task was seen running. */
  ghost predicate RunningUntil(polls: nat -> Poll, i: nat, j: nat) {
    forall h: nat | i <= h < j :: StillRunning(polls(h))
  }

  /** A delete is reported successful exactly when its task is seen to stop well within the window. */
  lemma {:induction false} TaskSucceeds(polls: nat -> Poll, i: nat)
    requires i <= 60
    ensures TaskOutcome(polls, i) == "" <==>
            exists j: nat :: i <= j < 60 && StoppedWell(polls(j)) && RunningUntil(polls, i, j)
    decreases POLL_WINDOW - i
  {
    if i < POLL_WINDOW {
      if StillRunning(polls(i)) {
        TaskSucceeds(polls, i + 1);
        if j: nat :| i + 1 <= j < POLL_WINDOW && StoppedWell(polls(j)) && RunningUntil(polls, i + 1, j) {
          assert RunningUntil(polls, i, j);
        }
        if j: nat :| i <= j < POLL_WINDOW && StoppedWell(polls(j)) && RunningUntil(polls, i, j) {
          assert j != i && RunningUntil(polls, i + 1, j);
        }
      } else if TaskOutcome(polls, i) == "" {
        assert StoppedWell(polls(i)) && RunningUntil(polls, i, i);
      } else if j: nat :| i <= j < POLL_WINDOW && StoppedWell(polls(j)) && RunningUntil(polls, i, j) {
        assert j == i;
      }
    }
  }

  /** The cluster says that the volume was deleted: the request was accepted with a task, and that task was seen to
      stop well. */
  ghost predicate SaysDeleted(reply: ApiReply) {
    && reply.status == 200 && reply.upid != ""
    && exists j: nat :: j < 60 && StoppedWell(reply.polls(j)) && RunningUntil(reply.polls, 0, j)
  }

  /** An API attempt counts as success exactly then. */
  lemma ApiSucceedsIff(reply: ApiReply)
    ensures ApiError(reply) == "" <==> SaysDeleted(reply)
  {
    TaskSucceeds(reply.polls, 0);
  }

  // ----- Detection -----

  ghost predicate OrphanEntry(env: Env, store: Store, key: Key, e: Content)
    requires key.node in env.vmids
  {
    && e in Listing(env, store, key.node, key.datastore)
    && IsOrphan(env.vmids[key.node], key.datastore, e)
    && Names((key.node, key.datastore), e, key)
  }

  /** `key` is listed in its datastore and owned by no VM of its node. */
  ghost predicate ListedOrphan(env: Env, store: Store, key: Key) {
    key.node in env.vmids && exists e :: OrphanEntry(env, store, key, e)
  }

  lemma {:induction false} OrphansInMember(existing: set<int>, node: string, ds: string, entries: seq<Content>,
                                           key: Key)
    ensures key in OrphansIn(existing, node, ds, entries) <==>
            exists e :: e in entries && IsOrphan(existing, ds, e) && Names((node, ds), e, key)
  {
    if entries != [] {
      var init := entries[..|entries| - 1];
      OrphansInMember(existing, node, ds, init, key);
      assert entries == init + [entries[|entries| - 1]];
    }
  }

  lemma ListedOrphanHere(env: Env, store: Store, node: string, ds: string, key: Key)
    requires node in env.vmids
    ensures key in OrphansIn(env.vmids[node], node, ds, Listing(env, store, node, ds)) <==>
            key.node == node && key.datastore == ds && ListedOrphan(env, store, key)
  {
    var entries := Listing(env, store, node, ds);
    OrphansInMember(env.vmids[node], node, ds, entries, key);
    if key.node == node && key.datastore == ds {
      forall e ensures OrphanEntry(env, store, key, e) <==>
                       e in entries && IsOrphan(env.vmids[node], ds, e) && Names((node, ds), e, key) {
      }
    }
  }

  lemma {:induction false} AllOrphansMember(env: Env, store: Store, node: string, datastores: seq<string>, key: Key)
    requires node in env.vmids
    ensures key in AllOrphans(env, store, node, datastores) <==>
            key.node == node && key.datastore in datastores && ListedOrphan(env, store, key)
  {
    if datastores != [] {
      var init, ds := datastores[..|datastores| - 1], datastores[|datastores| - 1];
      AllOrphansMember(env, store, node, init, key);
      ListedOrphanHere(env, store, node, ds, key);
      assert datastores == init + [ds];
    }
  }

  /** `find_orphans` returns exactly the listed volumes that no VM of the node owns, each once. */
  lemma OrphansExact(env: Env, store: Store, node: string, datastores: seq<string>, key: Key)
    requires node in env.vmids
    ensures key in Orphans(env, store, node, datastores) <==>
            key.node == node && key.datastore in datastores && ListedOrphan(env, store, key)
    ensures NoRepeats(Orphans(env, store, node, datastores))
  {
    AllOrphansMember(env, store, node, datastores, key);
    FirstsDistinct(AllOrphans(env, store, node, datastores));
  }

  /** Volume names are unique in a listing. */
  ghost predicate UniqueVolumes(entries: seq<Content>, ds: string) {
    forall x, y | x in entries && y in entries && StartsWith(x.volid, ds + ":") && StartsWith(y.volid, ds + ":") &&
                  AfterColon(x.volid) == AfterColon(y.volid) :: x == y
  }

  /** A listed volume whose owner can be told - by PVE's field, or without it by the name - is an orphan exactly if
      that VM is not on the node. */
  lemma FoundIffUnowned(env: Env, store: Store, node: string, datastores: seq<string>, ds: string, e: Content,
                        volume: string, v: int)
    requires node in env.vmids && ds in datastores && ':' !in ds
    requires (node, ds) in store && (node, ds) !in env.unreadable && e in store[(node, ds)]
    requires OwnedBy(e, ds, volume, v) && UniqueVolumes(store[(node, ds)], ds)
    ensures Key(node, ds, volume) in Orphans(env, store, node, datastores) <==> v !in env.vmids[node]
  {
    var key := Key(node, ds, volume);
    OwnerIsRead(e, ds, volume, v);
    OrphansExact(env, store, node, datastores, key);
    if v !in env.vmids[node] {
      assert OrphanEntry(env, store, key, e);
    }
  }

  /** A datastore that cannot be listed has no orphans, nor has a volume whose owner cannot be told, nor an entry of
      another datastore. */
  lemma NotFound(env: Env, store: Store, node: string, datastores: seq<string>, key: Key)
    requires node in env.vmids && key in Orphans(env, store, node, datastores)
    ensures (node, key.datastore) in store && (node, key.datastore) !in env.unreadable
    ensures exists e :: e in store[(node, key.datastore)] && OwnerId(e).Some? && OwnerId(e).value !in env.vmids[node] &&
                        key.datastore + ":" <= e.volid && AfterColon(e.volid) == key.volume
  {
    OrphansExact(env, store, node, datastores, key);
    var e :| OrphanEntry(env, store, key, e);
    assert e in store[(node, key.datastore)];
  }

  ghost function AddAll(found: seq<Key>, c: seq<Key>): seq<Key> {
    if c == [] then found
    else
      var before := AddAll(found, c[..|c| - 1]);
      if c[|c| - 1] in before then before else before + [c[|c| - 1]]
  }

  lemma {:induction false} FirstsSplit(a: seq<Key>, c: seq<Key>)
    ensures Firsts(a + c) == AddAll(Firsts(a), c)
  {
    if c == [] {
      assert a + c == a;
    } else {
      FirstsSplit(a, c[..|c| - 1]);
      assert (a + c)[..|a + c| - 1] == a + c[..|c| - 1];
    }
  }

  lemma {:induction false} AddKnown(found: seq<Key>, c: seq<Key>)
    requires forall x | x in c :: x in found
    ensures AddAll(found, c) == found
  {
    if c != [] {
      AddKnown(found, c[..|c| - 1]);
      assert c[|c| - 1] in c;
    }
  }

  /** Repeating a datastore changes neither the orphans nor their order. */
  lemma {:induction false} RepeatedDatastores(env: Env, store: Store, node: string, datastores: seq<string>)
    requires node in env.vmids
    ensures Orphans(env, store, node, datastores) == Orphans(env, store, node, Firsts(datastores))
  {
    if datastores != [] {
      var init, ds := datastores[..|datastores| - 1], datastores[|datastores| - 1];
      var here := OrphansIn(env.vmids[node], node, ds, Listing(env, store, node, ds));
      RepeatedDatastores(env, store, node, init);
      FirstsSplit(AllOrphans(env, store, node, init), here);
      if ds in init {
        forall key | key in here ensures key in AllOrphans(env, store, node, init) {
          ListedOrphanHere(env, store, node, ds, key);
          AllOrphansMember(env, store, node, init, key);
        }
        AddKnown(Firsts(AllOrphans(env, store, node, init)), here);
      } else {
        FirstsSplit(AllOrphans(env, store, node, Firsts(init)), here);
        assert (Firsts(init) + [ds])[..|Firsts(init)|] == Firsts(init);
      }
    }
  }

  // ----- What removals leave behind -----

  lemma {:induction false} KeepMember(at: (string, string), entries: seq<Content>, gone: set<Key>, e: Content)
    ensures e in Keep(at, entries, gone) <==> e in entries && !IsGone(at, e, gone)
  {
    if entries != [] {
      KeepMember(at, entries[..|entries| - 1], gone, e);
      assert entries == entries[..|entries| - 1] + [entries[|entries| - 1]];
    }
  }

  lemma {:induction false} KeepTwice(at: (string, string), entries: seq<Content>, r: set<Key>, s: set<Key>)
    ensures Keep(at, Keep(at, entries, r), s) == Keep(at, entries, r + s)
  {
    if entries != [] {
      var init, e := entries[..|entries| - 1], entries[|entries| - 1];
      KeepTwice(at, init, r, s);
      if !IsGone(at, e, r) {
        var kept := Keep(at, init, r);
        assert Keep(at, entries, r) == kept + [e] && (kept + [e])[..|kept|] == kept;
      } else {
        assert Keep(at, entries, r) == Keep(at, init, r);
      }
    }
  }

  lemma WithoutTwice(store: Store, r: set<Key>, s: set<Key>)
    ensures Without(Without(store, r), s) == Without(store, r + s)
  {
    forall at | at in store { KeepTwice(at, store[at], r, s); }
  }

  lemma {:induction false} KeepAll(at: (string, string), entries: seq<Content>, gone: set<Key>)
    requires forall k | k in gone :: k.node != at.0 || k.datastore != at.1
    ensures Keep(at, entries, gone) == entries
  {
    if entries != [] {
      var init, e := entries[..|entries| - 1], entries[|entries| - 1];
      KeepAll(at, init, gone);
      assert !IsGone(at, e, gone);
      assert entries == init + [e];
    }
  }

  lemma WithoutNothing(store: Store)
    ensures Without(store, {}) == store
  {
    forall at | at in store { KeepAll(at, store[at], {}); }
  }

  /** Removing volumes leaves exactly the orphans that were not among them. */
  lemma OrphansAfter(env: Env, store: Store, gone: set<Key>, node: string, datastores: seq<string>, key: Key)
    requires node in env.vmids
    ensures key in Orphans(env, Without(store, gone), node, datastores) <==>
            key in Orphans(env, store, node, datastores) && key !in gone
  {
    OrphansExact(env, store, node, datastores, key);
    OrphansExact(env, Without(store, gone), node, datastores, key);
    var at := (key.node, key.datastore);
    if key.node in env.vmids && at in store {
      forall e ensures OrphanEntry(env, Without(store, gone), key, e) <==>
                       OrphanEntry(env, store, key, e) && key !in gone {
        KeepMember(at, store[at], gone, e);
      }
    }
  }

  // ----- Previews -----

  /** A preview's report on a node: the header, then every orphan, in order. */
  lemma PreviewReport(env: Env, datastores: seq<string>, w: World, node: string)
    requires node in env.vmids
    ensures var orphans, lines := Orphans(env, w.store, node, datastores),
                                  CleanNode(env, false, datastores, w, node).lines;
            && lines.Some? && |lines.value| == 1 + |orphans| && lines.value[0] == Found(|orphans|, node)
            && forall i | 0 <= i < |orphans| :: lines.value[i + 1] == WouldRemove(orphans[i])
  {
    hide Orphans;
  }

  /** Without `apply` nothing is attempted and nothing changes, on any node. */
  lemma {:induction false} PreviewChangesNothing(env: Env, datastores: seq<string>, w: World, nodes: seq<string>)
    ensures Clean(env, false, datastores, w, nodes).world == w
  {
    if nodes != [] {
      PreviewChangesNothing(env, datastores, w, nodes[..|nodes| - 1]);
    }
  }

  // ----- Soundness -----

  /** What the cluster says was removed is gone. */
  ghost predicate Honest(env: Env) {
    && (forall n, k :: SaysDeleted(env.api(n, k)) ==> env.api(n, k).gone)
    && (forall n, k :: env.ssh(n, k).Answer? && SaysFreed(env.ssh(n, k).session) ==> env.ssh(n, k).gone)
  }

  /** Stage one takes away some of the orphans, all successful ones among them if the cluster is honest, and nothing
      else. */
  lemma {:induction false} ApiShrinks(env: Env, w: World, keys: seq<Key>) returns (gone: set<Key>)
    ensures ApiStage(env, w, keys).world.store == Without(w.store, gone)
    ensures forall k | k in gone :: k in keys
    ensures Honest(env) ==> forall k | k in keys && ErrorAt(ApiStage(env, w, keys).errors, k) == "" :: k in gone
  {
    gone := {};
    WithoutNothing(w.store);
    if keys != [] {
      var last := |keys| - 1;
      gone := ApiShrinks(env, w, keys[..last]);
      var before := ApiStage(env, w, keys[..last]);
      assert keys == keys[..last] + [keys[last]];
      WithoutTwice(w.store, gone, {keys[last]});
      var reply := env.api(|before.world.log|, keys[last]);
      ApiSucceedsIff(reply);
      if reply.gone {
        gone := gone + {keys[last]};
      }
    }
  }

  lemma {:induction false} SshShrinks(env: Env, start: Stage, failed: seq<Key>) returns (gone: set<Key>)
    ensures var s := SshStage(env, start, failed).stage;
            && s.world.store == Without(start.world.store, gone)
            && (forall k | k in gone :: k in failed)
            && (Honest(env) ==>
                  forall k | ErrorAt(s.errors, k) == "" :: ErrorAt(start.errors, k) == "" || k in gone)
  {
    gone := {};
    WithoutNothing(start.world.store);
    if failed != [] {
      var last := |failed| - 1;
      gone := SshShrinks(env, start, failed[..last]);
      var before, r := SshStage(env, start, failed[..last]), SshStage(env, start, failed);
      assert failed == failed[..last] + [failed[last]];
      WithoutTwice(start.world.store, gone, {failed[last]});
      if before.Done? && r.Done? {
        var reply := env.ssh(|before.stage.world.log|, failed[last]);
        SuccessIff(reply.session);
        if reply.gone {
          gone := gone + {failed[last]};
        }
      }
    }
  }

  lemma {:induction false} FailedMember(keys: seq<Key>, errors: map<Key, string>)
    requires NoRepeats(keys)
    ensures forall k :: k in Failed(keys, errors) <==> k in keys && ErrorAt(errors, k) != ""
    ensures NoRepeats(Failed(keys, errors))
  {
    if keys != [] {
      var init, key := keys[..|keys| - 1], keys[|keys| - 1];
      FailedMember(init, errors);
      assert keys == init + [key];
      assert key !in init;
      var f := Failed(init, errors);
      assert key !in f;
    }
  }

  lemma RemovalShrinks(env: Env, w: World, orphans: seq<Key>) returns (gone: set<Key>)
    requires NoRepeats(orphans)
    ensures var s := Removal(env, w, orphans).stage;
            && s.world.store == Without(w.store, gone)
            && (forall k | k in gone :: k in orphans)
            && (Honest(env) ==> forall k | k in orphans && ErrorAt(s.errors, k) == "" :: k in gone)
  {
    gone := ApiShrinks(env, w, orphans);
    var api := ApiStage(env, w, orphans);
    var failed := Failed(orphans, api.errors);
    FailedMember(orphans, api.errors);
    if failed != [] && env.fallback {
      var more := SshShrinks(env, api, failed);
      WithoutTwice(w.store, gone, more);
      gone := gone + more;
    }
  }

  /** A node's pass takes away orphans of that node only; if the cluster is honest and the report names no failure,
      all of them. */
  lemma NodeShrinks(env: Env, apply: bool, datastores: seq<string>, w: World, node: string) returns (gone: set<Key>)
    requires node in env.vmids
    ensures var o := CleanNode(env, apply, datastores, w, node);
            && o.world.store == Without(w.store, gone)
            && (forall k | k in gone :: k in Orphans(env, w.store, node, datastores))
            && (apply && Honest(env) && NoFailure(o.lines) ==>
                  forall k | k in Orphans(env, w.store, node, datastores) :: k in gone)
  {
    var orphans := Orphans(env, w.store, node, datastores);
    gone := {};
    WithoutNothing(w.store);
    if apply {
      FirstsDistinct(AllOrphans(env, w.store, node, datastores));
      gone := RemovalShrinks(env, w, orphans);
      var o := CleanNode(env, apply, datastores, w, node);
      if NoFailure(o.lines) && Honest(env) {
        forall k | k in orphans ensures k in gone {
          var i :| 0 <= i < |orphans| && orphans[i] == k;
          assert o.lines.value[i + 1] in o.lines.value;
        }
      }
    }
  }

  /** Soundness, for every run, also one that ends in an error: only volumes that were orphans of a visited node
      when the run began can be gone, and everything else is still there in its order. */
  lemma {:induction false} CleanSound(env: Env, apply: bool, datastores: seq<string>, w: World, nodes: seq<string>)
      returns (gone: set<Key>)
    ensures Clean(env, apply, datastores, w, nodes).world.store == Without(w.store, gone)
    ensures forall k | k in gone ::
              k.node in nodes && k.node in env.vmids && k in Orphans(env, w.store, k.node, datastores)
  {
    gone := {};
    WithoutNothing(w.store);
    if nodes != [] {
      var node := nodes[|nodes| - 1];
      gone := CleanSound(env, apply, datastores, w, nodes[..|nodes| - 1]);
      assert nodes == nodes[..|nodes| - 1] + [node];
      var before := Clean(env, apply, datastores, w, nodes[..|nodes| - 1]);
      if before.lines.Some? && node in env.vmids {
        var more := NodeShrinks(env, apply, datastores, before.world, node);
        WithoutTwice(w.store, gone, more);
        forall k | k in more ensures k.node == node && k in Orphans(env, w.store, node, datastores) {
          OrphansAfter(env, w.store, gone, node, datastores, k);
          OrphansExact(env, w.store, node, datastores, k);
        }
        gone := gone + more;
      }
    }
  }

  /** A volume of a VM on its node's list - by PVE's field, or without it by the name - is untouched, whatever
      happens. */
  lemma OwnedUntouched(env: Env, apply: bool, datastores: seq<string>, w: World, nodes: seq<string>,
                       at: (string, string), e: Content, volume: string, v: int)
    requires at in w.store && e in w.store[at] && UniqueVolumes(w.store[at], at.1) && ':' !in at.1
    requires at.0 in env.vmids && OwnedBy(e, at.1, volume, v) && v in env.vmids[at.0]
    ensures var after := Clean(env, apply, datastores, w, nodes).world.store;
            at in after && e in after[at]
  {
    var gone := CleanSound(env, apply, datastores, w, nodes);
    OwnerIsRead(e, at.1, volume, v);
    KeepMember(at, w.store[at], gone, e);
    var key := Key(at.0, at.1, AfterColon(e.volid));
    OrphansExact(env, w.store, at.0, datastores, key);
  }

  // ----- Convergence -----

  ghost predicate NoFailure(lines: Option<seq<Line>>) {
    lines.Some? && forall l | l in lines.value :: !l.CouldNotRemove?
  }

  ghost predicate Clear(env: Env, store: Store, node: string, datastores: seq<string>) {
    node in env.vmids && Orphans(env, store, node, datastores) == []
  }

  lemma StaysClear(env: Env, store: Store, gone: set<Key>, node: string, datastores: seq<string>)
    requires node in env.vmids
    requires forall k | k in Orphans(env, store, node, datastores) :: k in gone
    ensures Clear(env, Without(store, gone), node, datastores)
  {
    var left := Orphans(env, Without(store, gone), node, datastores);
    if left != [] {
      assert left[0] in left;
      OrphansAfter(env, store, gone, node, datastores, left[0]);
    }
  }

  lemma NoFailureSplit(a: seq<Line>, b: seq<Line>)
    requires NoFailure(Some(a + b))
    ensures NoFailure(Some(a)) && NoFailure(Some(b))
  {
    assert forall l | l in a || l in b :: l in a + b;
  }

  lemma NoFailureStep(env: Env, datastores: seq<string>, w: World, init: seq<string>, node: string)
    requires NoFailure(Clean(env, true, datastores, w, init + [node]).lines)
    ensures var before := Clean(env, true, datastores, w, init);
            var here := CleanNode(env, true, datastores, before.world, node);
            && NoFailure(before.lines) && NoFailure(here.lines)
            && Clean(env, true, datastores, w, init + [node]).world == here.world
  {
    hide CleanNode;
    assert (init + [node])[..|init|] == init;
    var before := Clean(env, true, datastores, w, init);
    NoFailureSplit(before.lines.value, CleanNode(env, true, datastores, before.world, node).lines.value);
  }

  /** A node's pass without a failure clears that node, and keeps other nodes clear. */
  lemma NodeConverges(env: Env, datastores: seq<string>, w: World, node: string, n: string)
    requires Honest(env) && NoFailure(CleanNode(env, true, datastores, w, node).lines)
    requires n == node || Clear(env, w.store, n, datastores)
    ensures Clear(env, CleanNode(env, true, datastores, w, node).world.store, n, datastores)
  {
    var gone := NodeShrinks(env, true, datastores, w, node);
    StaysClear(env, w.store, gone, n, datastores);
  }

  lemma NodesConverge(env: Env, datastores: seq<string>, w: World, init: seq<string>, node: string)
    requires Honest(env) && NoFailure(CleanNode(env, true, datastores, w, node).lines)
    requires forall n | n in init :: Clear(env, w.store, n, datastores)
    ensures forall n | n in init + [node] ::
              Clear(env, CleanNode(env, true, datastores, w, node).world.store, n, datastores)
  {
    forall n | n in init + [node]
      ensures Clear(env, CleanNode(env, true, datastores, w, node).world.store, n, datastores) {
      NodeConverges(env, datastores, w, node, n);
    }
  }

  /** A run that reports no failure leaves no orphan on the nodes it visited, if the cluster is honest. */
  lemma {:induction false} CleanConverges(env: Env, datastores: seq<string>, w: World, nodes: seq<string>)
    requires Honest(env) && NoFailure(Clean(env, true, datastores, w, nodes).lines)
    ensures forall n | n in nodes :: Clear(env, Clean(env, true, datastores, w, nodes).world.store, n, datastores)
  {
    if nodes != [] {
      hide Clean, CleanNode, Clear;
      var init, node := nodes[..|nodes| - 1], nodes[|nodes| - 1];
      var before := Clean(env, true, datastores, w, init);
      var here := CleanNode(env, true, datastores, before.world, node);
      assert nodes == init + [node];
      NoFailureStep(env, datastores, w, init, node);
      CleanConverges(env, datastores, w, init);
      NodesConverge(env, datastores, before.world, init, node);
    }
  }

  /** The report is written node by node, in the order of the nodes. */
  lemma {:induction false} ReportInOrder(env: Env, apply: bool, datastores: seq<string>, w: World, nodes: seq<string>,
                                         i: nat)
    requires i < |nodes| && Clean(env, apply, datastores, w, nodes).lines.Some?
    ensures var before, upto := Clean(env, apply, datastores, w, nodes[..i]).lines,
                                Clean(env, apply, datastores, w, nodes[..i + 1]).lines;
            && before.Some? && upto.Some? && upto.value <= Clean(env, apply, datastores, w, nodes).lines.value
            && |before.value| < |upto.value| && before.value <= upto.value
            && upto.value[|before.value|].Found? && upto.value[|before.value|].node == nodes[i]
  {
    hide CleanNode;
    var init, node := nodes[..|nodes| - 1], nodes[|nodes| - 1];
    assert nodes == init + [node];
    if i == |init| {
      assert nodes[..i + 1] == nodes && nodes[..i] == init;
      HeaderFirst(env, apply, datastores, Clean(env, apply, datastores, w, init).world, node);
    } else {
      assert init[..i] == nodes[..i] && init[..i + 1] == nodes[..i + 1];
      ReportInOrder(env, apply, datastores, w, init, i);
    }
  }

  lemma HeaderFirst(env: Env, apply: bool, datastores: seq<string>, w: World, node: string)
    requires CleanNode(env, apply, datastores, w, node).lines.Some?
    ensures var lines := CleanNode(env, apply, datastores, w, node).lines.value;
            lines != [] && lines[0].Found? && lines[0].node == node
  {
  }

  // ----- How many lines -----

  ghost function OrphanTotal(env: Env, store: Store, datastores: seq<string>, nodes: seq<string>): nat {
    if nodes == [] then 0
    else
      var node := nodes[|nodes| - 1];
      OrphanTotal(env, store, datastores, nodes[..|nodes| - 1]) + 1 +
      if node in env.vmids then |Orphans(env, store, node, datastores)| else 0
  }

  lemma {:induction false} OtherNodesSame(env: Env, store: Store, gone: set<Key>, node: string, datastores: seq<string>)
    requires node in env.vmids && forall k | k in gone :: k.node != node
    ensures AllOrphans(env, Without(store, gone), node, datastores) == AllOrphans(env, store, node, datastores)
  {
    if datastores != [] {
      var ds := datastores[|datastores| - 1];
      OtherNodesSame(env, store, gone, node, datastores[..|datastores| - 1]);
      if (node, ds) in store {
        KeepAll((node, ds), store[(node, ds)], gone);
      }
    }
  }

  lemma NodeLines(env: Env, apply: bool, datastores: seq<string>, w: World, node: string)
    requires CleanNode(env, apply, datastores, w, node).lines.Some?
    ensures node in env.vmids
    ensures |CleanNode(env, apply, datastores, w, node).lines.value| == 1 + |Orphans(env, w.store, node, datastores)|
  {
  }

  /** A report has one line per node and one per orphan that was there when the run began. */
  lemma {:induction false} LineTotal(env: Env, apply: bool, datastores: seq<string>, w: World, nodes: seq<string>)
    requires Clean(env, apply, datastores, w, nodes).lines.Some? && NoRepeats(nodes)
    ensures |Clean(env, apply, datastores, w, nodes).lines.value| == OrphanTotal(env, w.store, datastores, nodes)
  {
    if nodes != [] {
      var init, node := nodes[..|nodes| - 1], nodes[|nodes| - 1];
      LineTotal(env, apply, datastores, w, init);
      NodeLines(env, apply, datastores, Clean(env, apply, datastores, w, init).world, node);
      var gone := CleanSound(env, apply, datastores, w, init);
      OtherNodesSame(env, w.store, gone, node, datastores);
    }
  }
}
