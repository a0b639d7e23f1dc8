/** What builds guarantee, one at a time and in any sequence. */
module Builds {
  import opened Wrappers
  import opened Ordering
  import opened Placement
  import opened Allocation
  import opened Planner

  // ----- Sums over the VM dict, whatever its order -----

  ghost function SumOf(res: Resource, reqs: seq<Request>, keys: set<string>): nat {
    if reqs == [] then 0
    else
      var q := reqs[|reqs| - 1];
      SumOf(res, reqs[..|reqs| - 1], keys) + if q.key in keys then q.Need(res) else 0
  }

  ghost function KeysOn(choices: Mapping, n: string): set<string> {
    set k | k in choices && choices[k] == n
  }

  /** Everything the build puts on `n`: pinned, recorded and fresh. */
  ghost function Assigned(res: Resource, b: Build, choices: Mapping, n: string): nat {
    SumOf(res, b.vms, KeysOn(choices, n))
  }

  lemma {:induction false} SumAppend(res: Resource, a: seq<Request>, b: seq<Request>, keys: set<string>)
    ensures SumOf(res, a + b, keys) == SumOf(res, a, keys) + SumOf(res, b, keys)
  {
    if b == [] {
      assert a + b == a;
    } else {
      var init := b[..|b| - 1];
      SumAppend(res, a, init, keys);
      assert (a + b)[..|a + b| - 1] == a + init;
    }
  }

  lemma SumWithout(res: Resource, reqs: seq<Request>, keys: set<string>, j: nat)
    requires j < |reqs|
    ensures SumOf(res, reqs, keys) ==
            SumOf(res, reqs[..j] + reqs[j + 1..], keys) + if reqs[j].key in keys then reqs[j].Need(res) else 0
  {
    assert reqs == reqs[..j + 1] + reqs[j + 1..];
    assert reqs[..j + 1][..j] == reqs[..j];
    SumAppend(res, reqs[..j + 1], reqs[j + 1..], keys);
    SumAppend(res, reqs[..j], reqs[j + 1..], keys);
  }

  ghost predicate SameItems(a: seq<Request>, b: seq<Request>) {
    && DistinctKeys(a) && DistinctKeys(b)
    && (forall q | q in a :: q in b) && (forall q | q in b :: q in a)
  }

  lemma {:induction false} SumSame(res: Resource, a: seq<Request>, b: seq<Request>, keys: set<string>)
    requires SameItems(a, b)
    ensures SumOf(res, a, keys) == SumOf(res, b, keys)
  {
    assert b != [] ==> b[0] in b;
    if a != [] {
      var last := |a| - 1;
      var x := a[last];
      assert x in b;
      var j :| 0 <= j < |b| && b[j] == x;
      var rest := b[..j] + b[j + 1..];
      forall q ensures q in a[..last] <==> q in rest {
        if q in rest { assert q in b && q.key != x.key; }
        if q in a[..last] { assert q in a && q != x; }
      }
      SumWithout(res, b, keys, j);
      SumSame(res, a[..last], rest, keys);
    }
  }

  lemma {:induction false} UsedIsSum(res: Resource, reqs: seq<Request>, nodes: seq<string>, choices: Mapping, n: string)
    requires |reqs| == |nodes|
    requires forall i | 0 <= i < |reqs| :: reqs[i].key in choices && choices[reqs[i].key] == nodes[i]
    ensures UsedOn(res, reqs, nodes, n) == SumOf(res, reqs, KeysOn(choices, n))
  {
    if reqs != [] {
      UsedIsSum(res, reqs[..|reqs| - 1], nodes[..|reqs| - 1], choices, n);
    }
  }

  lemma {:induction false} TotalIsSum(res: Resource, reqs: seq<Request>, keys: set<string>)
    requires forall q | q in reqs :: q.key in keys
    ensures TotalNeed(res, reqs) == SumOf(res, reqs, keys)
  {
    if reqs != [] {
      TotalIsSum(res, reqs[..|reqs| - 1], keys);
    }
  }

  // ----- The order in which the VMs are planned -----

  ghost predicate IsDecided(overrides: Mapping, record: Mapping, key: string) {
    key in overrides || key in record
  }

  /** The keys in planning order. */
  ghost function KeyOrder(vms: seq<Request>, overrides: Mapping, record: Mapping): seq<string> {
    Known(vms, overrides, record) + FreshKeys(vms, overrides, record)
  }

  lemma KeyOrderDistinct(vms: seq<Request>, overrides: Mapping, record: Mapping)
    ensures var keys := KeyOrder(vms, overrides, record);
            && (forall i, j | 0 <= i < j < |keys| :: keys[i] != keys[j])
            && (forall q | q in vms :: q.key in keys)
  {
    var known, newKeys := Known(vms, overrides, record), FreshKeys(vms, overrides, record);
    var keys := KeyOrder(vms, overrides, record);
    forall i, j | 0 <= i < j < |keys| ensures keys[i] != keys[j] {
      if i < |known| <= j {
        assert keys[i] in known && keys[j] in newKeys;
      }
    }
    forall q | q in vms ensures q.key in keys {
      assert q.key in known || q.key in newKeys;
    }
  }

  /** Decided keys first; both parts ascending. */
  lemma KeyOrderSplit(vms: seq<Request>, overrides: Mapping, record: Mapping)
    ensures var keys, k := KeyOrder(vms, overrides, record), |Known(vms, overrides, record)|;
            && (forall i | 0 <= i < |keys| :: IsDecided(overrides, record, keys[i]) <==> i < k)
            && (forall i, j | 0 <= i < j < k || k <= i < j < |keys| :: StringLe(keys[i], keys[j]))
  {
    var known, newKeys := Known(vms, overrides, record), FreshKeys(vms, overrides, record);
    var keys, k := KeyOrder(vms, overrides, record), |known|;
    forall i | 0 <= i < |keys| ensures IsDecided(overrides, record, keys[i]) <==> i < k {
      assert if i < k then keys[i] in known else keys[i] in newKeys;
    }
  }

  lemma ListedItems(vms: seq<Request>, keys: seq<string>, reqs: seq<Request>)
    requires DistinctKeys(vms) && |reqs| == |keys|
    requires forall i | 0 <= i < |keys| :: reqs[i] in vms && reqs[i].key == keys[i]
    requires forall i, j | 0 <= i < j < |keys| :: keys[i] != keys[j]
    requires forall q | q in vms :: q.key in keys
    ensures SameItems(vms, reqs)
  {
    forall q | q in vms ensures q in reqs {
      var i :| 0 <= i < |keys| && keys[i] == q.key;
      SameKey(vms, reqs[i], q);
    }
  }

  lemma KnownFirstByKeys(overrides: Mapping, record: Mapping, keys: seq<string>, reqs: seq<Request>, k: nat)
    requires |reqs| == |keys| && k <= |keys| && forall i | 0 <= i < |keys| :: reqs[i].key == keys[i]
    requires forall i, j | 0 <= i < j < |keys| :: keys[i] != keys[j]
    requires forall i | 0 <= i < |keys| :: IsDecided(overrides, record, keys[i]) <==> i < k
    ensures KnownFirst(overrides, record, reqs, k)
  {
    forall i | 0 <= i < |reqs| ensures IsDecided(overrides, record, reqs[i].key) <==> i < k {
      assert reqs[i].key == keys[i];
    }
  }

  lemma OrderedKnownFirst(vms: seq<Request>, overrides: Mapping, record: Mapping)
    requires DistinctKeys(vms)
    ensures var reqs, k := Ordered(vms, overrides, record), |Known(vms, overrides, record)|;
            && KnownFirst(overrides, record, reqs, k)
            && SameItems(vms, reqs)
            && (forall i, j | 0 <= i < j < k || k <= i < j < |reqs| :: StringLe(reqs[i].key, reqs[j].key))
  {
    KeyOrderDistinct(vms, overrides, record);
    KeyOrderSplit(vms, overrides, record);
    var keys, reqs := KeyOrder(vms, overrides, record), Ordered(vms, overrides, record);
    ListedItems(vms, keys, reqs);
    KnownFirstByKeys(overrides, record, keys, reqs, |Known(vms, overrides, record)|);
  }

  lemma SameKey(vms: seq<Request>, p: Request, q: Request)
    requires DistinctKeys(vms) && p in vms && q in vms && p.key == q.key
    ensures p == q
  {
    var i :| 0 <= i < |vms| && vms[i] == p;
    var j :| 0 <= j < |vms| && vms[j] == q;
  }

  // ----- One successful build -----

  ghost predicate Succeeds(c: FileContent, b: Build) {
    b.Valid() && Built(c, b).0.Success?
  }

  ghost function ChoicesOf(c: FileContent, b: Build): Mapping
    requires Succeeds(c, b)
  {
    Built(c, b).0.value
  }

  ghost function RecordOf(c: FileContent): Mapping
    requires Loaded(c).Success?
  {
    Loaded(c).value
  }

  /** A key that was neither pinned nor on record when the build began. */
  ghost predicate IsFresh(c: FileContent, b: Build, key: string) {
    && Loaded(c).Success?
    && key !in b.overrides && key !in RecordOf(c)
    && exists q :: q in b.vms && q.key == key
  }

  ghost function PlanOf(c: FileContent, b: Build): Outcome
    requires Loaded(c).Success?
  {
    Plan(CapacitiesOf(b), b.overrides, RecordOf(c), Ordered(b.vms, b.overrides, RecordOf(c)))
  }

  /** A successful build is a plan over its candidate nodes. */
  lemma BuiltIsPlan(c: FileContent, b: Build)
    requires Succeeds(c, b)
    ensures Gathered(b) == Success(CapacitiesOf(b)) && PlanOf(c, b).Planned?
    ensures ChoicesOf(c, b) == Choices(Ordered(b.vms, b.overrides, RecordOf(c)), PlanOf(c, b).nodes)
    ensures Built(c, b).1 == if b.persist && FreshKeys(b.vms, b.overrides, RecordOf(c)) != []
                             then Saved(PlanOf(c, b).placements) else c
  {
    hide Plan, Ordered, FreshKeys, Choices, Saved;
  }

  /** ... whose choices resolve every key; `BuildLoad` reads its loads off the VM dict. */
  lemma BuildIsPlan(c: FileContent, b: Build)
    requires Succeeds(c, b)
    ensures PlanOf(c, b).Planned? && Gathered(b) == Success(CapacitiesOf(b))
    ensures var o, reqs, choices := PlanOf(c, b), Ordered(b.vms, b.overrides, RecordOf(c)), ChoicesOf(c, b);
            && choices.Keys == KeysOf(reqs)
            && (forall i | 0 <= i < |reqs| ::
                  reqs[i].key in choices && choices[reqs[i].key] == o.nodes[i] &&
                  Resolved(b.overrides, o.placements, reqs[i].key, o.nodes[i]))
  {
    BuiltIsPlan(c, b);
    PlanResolves(CapacitiesOf(b), b.overrides, RecordOf(c), Ordered(b.vms, b.overrides, RecordOf(c)));
    ChoicesResolve(b.overrides, PlanOf(c, b).placements, Ordered(b.vms, b.overrides, RecordOf(c)), PlanOf(c, b).nodes);
  }

  lemma BuildLoad(c: FileContent, b: Build, res: Resource, n: string)
    requires Succeeds(c, b) && PlanOf(c, b).Planned?
    ensures UsedOn(res, Ordered(b.vms, b.overrides, RecordOf(c)), PlanOf(c, b).nodes, n) ==
            Assigned(res, b, ChoicesOf(c, b), n)
  {
    BuildIsPlan(c, b);
    var reqs := Ordered(b.vms, b.overrides, RecordOf(c));
    OrderedKnownFirst(b.vms, b.overrides, RecordOf(c));
    UsedIsSum(res, reqs, PlanOf(c, b).nodes, ChoicesOf(c, b), n);
    SumSame(res, b.vms, reqs, KeysOn(ChoicesOf(c, b), n));
  }

  /** Every requested VM is placed, on its override if it has one, else where the record says. */
  lemma EveryVmPlaced(c: FileContent, b: Build, q: Request)
    requires Succeeds(c, b) && q in b.vms
    ensures q.key in ChoicesOf(c, b)
    ensures q.key in b.overrides ==> ChoicesOf(c, b)[q.key] == b.overrides[q.key]
    ensures q.key !in b.overrides && q.key in RecordOf(c) ==> ChoicesOf(c, b)[q.key] == RecordOf(c)[q.key]
    ensures q.key !in b.overrides ==>
              q.key in PlanOf(c, b).placements && ChoicesOf(c, b)[q.key] == PlanOf(c, b).placements[q.key]
  {
    BuildIsPlan(c, b);
    var reqs := Ordered(b.vms, b.overrides, RecordOf(c));
    OrderedKnownFirst(b.vms, b.overrides, RecordOf(c));
    RecordKept(CapacitiesOf(b), b.overrides, RecordOf(c), reqs);
    var i :| 0 <= i < |reqs| && reqs[i] == q;
    assert Resolved(b.overrides, PlanOf(c, b).placements, reqs[i].key, PlanOf(c, b).nodes[i]);
  }

  lemma FreshIndex(c: FileContent, b: Build, key: string) returns (i: nat)
    requires Succeeds(c, b) && IsFresh(c, b, key)
    ensures var reqs := Ordered(b.vms, b.overrides, RecordOf(c));
            |Known(b.vms, b.overrides, RecordOf(c))| <= i < |reqs| && reqs[i].key == key
  {
    var reqs := Ordered(b.vms, b.overrides, RecordOf(c));
    OrderedKnownFirst(b.vms, b.overrides, RecordOf(c));
    var q :| q in b.vms && q.key == key;
    assert q in reqs;
    i :| 0 <= i < |reqs| && reqs[i] == q;
  }

  /** The caller's candidates if it names any, else the nodes the cluster reports online. */
  ghost predicate IsCandidate(b: Build, n: string) {
    if b.candidateNodes != [] then n in b.candidateNodes else b.onlineNodes.Some? && n in b.onlineNodes.value
  }

  /** When a build fails before it plans, and how: the record file comes first, then the ticket, the cluster status
      (only if no candidates were named), the node set and the capacities. The file stays as it was. */
  lemma BuildErrors(c: FileContent, b: Build)
    requires b.Valid()
    ensures var r, readable := Built(c, b).0, !c.Unreadable? && !c.NotAnObject?;
            && (r.Failure? ==> Built(c, b).1 == c)
            && (r == Failure(BadRecord) <==> !readable)
            && (r == Failure(AuthFailed) <==> readable && !b.authOk)
            && (r == Failure(StatusUnread) <==> readable && b.authOk && b.candidateNodes == [] && b.onlineNodes == None)
            && (r == Failure(NoNodes) <==> readable && b.authOk && b.candidateNodes == [] && b.onlineNodes == Some([]))
            && (r == Failure(CapacityUnread) <==>
                  readable && b.authOk && exists n :: IsCandidate(b, n) && n !in b.readings)
  {
    hide Plan, Ordered, FreshKeys, Choices, Saved, ToMap;
    LoadedExactly(c);
    GatherErrors(b);
  }

  lemma GatherErrors(b: Build)
    ensures var g := Gathered(b);
            && (g == Failure(AuthFailed) <==> !b.authOk)
            && (g == Failure(StatusUnread) <==> b.authOk && b.candidateNodes == [] && b.onlineNodes == None)
            && (g == Failure(NoNodes) <==> b.authOk && b.candidateNodes == [] && b.onlineNodes == Some([]))
            && (g == Failure(CapacityUnread) <==> b.authOk && exists n :: IsCandidate(b, n) && n !in b.readings)
            && (g.Failure? ==> g.error != BadRecord)
  {
    assert forall n :: IsCandidate(b, n) <==> n in b.Nodes();
  }

  /** A node that receives a fresh VM ends within its reported free RAM and disk. */
  lemma BuildCapacitySafe(c: FileContent, b: Build, key: string)
    requires Succeeds(c, b) && IsFresh(c, b, key)
    ensures var choices := ChoicesOf(c, b);
            && key in choices && IsCandidate(b, choices[key]) && choices[key] in b.readings
            && Assigned(Ram, b, choices, choices[key]) <= b.readings[choices[key]].freeRam
            && Assigned(Disk, b, choices, choices[key]) <= b.readings[choices[key]].freeDisk
  {
    BuildIsPlan(c, b);
    var reqs := Ordered(b.vms, b.overrides, RecordOf(c));
    OrderedKnownFirst(b.vms, b.overrides, RecordOf(c));
    var i := FreshIndex(c, b, key);
    CapacitySafe(CapacitiesOf(b), b.overrides, RecordOf(c), reqs, |Known(b.vms, b.overrides, RecordOf(c))|, i);
    BuildLoad(c, b, Ram, PlanOf(c, b).nodes[i]);
    BuildLoad(c, b, Disk, PlanOf(c, b).nodes[i]);
  }

  ghost function LeftOver(res: Resource, b: Build, choices: Mapping, n: string): int
    requires n in b.readings && res != Head
  {
    b.readings[n].Free(res) - Assigned(res, b, choices, n)
  }

  /** List-scheduling bound: `q` is the last fresh VM on its node, so no candidate with disk to spare
      ends more than `q.ram` ahead of that node. */
  lemma BuildSpread(c: FileContent, b: Build, q: Request, m: string)
    requires Succeeds(c, b) && q in b.vms && IsFresh(c, b, q.key)
    requires q.key in ChoicesOf(c, b)
    requires forall k | IsFresh(c, b, k) && k in ChoicesOf(c, b) && ChoicesOf(c, b)[k] == ChoicesOf(c, b)[q.key] ::
               StringLe(k, q.key)
    requires m in b.Nodes() && m in b.readings && q.disk <= LeftOver(Disk, b, ChoicesOf(c, b), m)
    ensures var choices := ChoicesOf(c, b);
            && choices[q.key] in b.readings
            && LeftOver(Ram, b, choices, m) <= LeftOver(Ram, b, choices, choices[q.key]) + q.ram
  {
    BuildIsPlan(c, b);
    var record, choices := RecordOf(c), ChoicesOf(c, b);
    var reqs, nodes := Ordered(b.vms, b.overrides, record), PlanOf(c, b).nodes;
    OrderedKnownFirst(b.vms, b.overrides, record);
    var i := FreshIndex(c, b, q.key);
    SameKey(b.vms, reqs[i], q);
    forall j | i < j < |reqs| ensures nodes[j] != nodes[i] {
      assert reqs[j] in b.vms && IsFresh(c, b, reqs[j].key);
      StringLeTotal(reqs[i].key, reqs[j].key);
      assert choices[reqs[j].key] == nodes[j] && choices[reqs[i].key] == nodes[i];
    }
    TailIsFresh(CapacitiesOf(b), b.overrides, record, reqs, |Known(b.vms, b.overrides, record)|, i);
    BuildLoad(c, b, Ram, m);
    BuildLoad(c, b, Disk, m);
    BuildLoad(c, b, Ram, nodes[i]);
    SpreadAt(CapacitiesOf(b), b.overrides, record, reqs, i, m);
  }

  /** Equal VMs, none decided before, on equally free nodes with ample disk: counts differ by at most one. */
  lemma BuildBalanced(c: FileContent, b: Build, ram: nat, disk: nat, freeRam: int, n: string, m: string)
    requires Succeeds(c, b)
    requires ram > 0 && forall q | q in b.vms :: q.ram == ram && q.disk == disk && IsFresh(c, b, q.key)
    requires forall x | x in CapacitiesOf(b) ::
               b.readings[x].freeRam == freeRam && disk * |b.vms| <= b.readings[x].freeDisk
    requires n in CapacitiesOf(b) && m in CapacitiesOf(b)
    ensures Assigned(Head, b, ChoicesOf(c, b), n) <= Assigned(Head, b, ChoicesOf(c, b), m) + 1
  {
    BuildIsPlan(c, b);
    var record := RecordOf(c);
    var reqs := Ordered(b.vms, b.overrides, record);
    OrderedKnownFirst(b.vms, b.overrides, record);
    assert (set q | q in b.vms && (q.key in b.overrides || q.key in record) :: q.key) == {};
    LexIsTotalOrder();
    assert |Known(b.vms, b.overrides, record)| == 0;
    SameLength(b.vms, reqs);
    BuildLoad(c, b, Head, n);
    BuildLoad(c, b, Head, m);
    BurstBalanced(CapacitiesOf(b), b.overrides, record, reqs, ram, disk, freeRam, n, m);
  }

  lemma SameLength(a: seq<Request>, b: seq<Request>)
    requires SameItems(a, b)
    ensures |a| == |b|
  {
    var keys := KeysOf(a) + KeysOf(b);
    SumSame(Head, a, b, keys);
    HeadsAreLength(a, keys);
    HeadsAreLength(b, keys);
  }

  lemma {:induction false} HeadsAreLength(reqs: seq<Request>, keys: set<string>)
    requires forall q | q in reqs :: q.key in keys
    ensures SumOf(Head, reqs, keys) == |reqs|
  {
    if reqs != [] {
      HeadsAreLength(reqs[..|reqs| - 1], keys);
    }
  }

  // ----- When a build succeeds -----

  /** The capacity dict, in its key order. */
  ghost function CapacityItems(b: Build): seq<NodeCapacity>
    requires b.Valid() && Gathered(b).Success?
  {
    ReadAll(Firsts(b.Nodes()), b.readings)
  }

  /** Slack of one footprint per node, and disk for everything everywhere, rules out a raise. */
  lemma BuildSucceeds(c: FileContent, b: Build, largest: nat)
    requires b.Valid() && Loaded(c).Success? && Gathered(b).Success?
    requires forall q | q in b.vms :: q.ram <= largest
    requires TotalFree(CapacityItems(b)) - TotalNeed(Ram, b.vms) > |CapacityItems(b)| * (largest - 1)
    requires forall x | x in CapacityItems(b) :: TotalNeed(Disk, b.vms) <= x.freeDisk
    ensures Built(c, b).0.Success?
  {
    var record, items := RecordOf(c), CapacityItems(b);
    var reqs := Ordered(b.vms, b.overrides, record);
    OrderedKnownFirst(b.vms, b.overrides, record);
    CapacityDict(b);
    SameTotals(Ram, b.vms, reqs);
    SameTotals(Disk, b.vms, reqs);
    CapacityItemsExist(b);
    SlackSuffices(items, b.overrides, record, reqs, largest);
    BuiltWhenPlanned(c, b);
  }

  lemma SameTotals(res: Resource, a: seq<Request>, b: seq<Request>)
    requires SameItems(a, b)
    ensures TotalNeed(res, a) == TotalNeed(res, b)
  {
    var keys := KeysOf(a) + KeysOf(b);
    TotalIsSum(res, a, keys);
    TotalIsSum(res, b, keys);
    SumSame(res, a, b, keys);
  }

  lemma CapacityItemsExist(b: Build)
    requires b.Valid() && Gathered(b).Success?
    ensures CapacityItems(b) != []
  {
    assert b.Nodes()[0] in Firsts(b.Nodes());
  }

  lemma BuiltWhenPlanned(c: FileContent, b: Build)
    requires b.Valid() && Loaded(c).Success? && Gathered(b).Success?
    ensures Built(c, b).0.Success? <==> PlanOf(c, b).Planned?
    ensures PlanOf(c, b).Infeasible? ==> Built(c, b).0 == Failure(NoFeasibleNode(PlanOf(c, b).key))
  {
    hide Plan, Ordered, FreshKeys, Choices, Saved;
    assert Gathered(b) == Success(CapacitiesOf(b));
  }

  /** With a readable record and cluster, a build raises exactly when some fresh VM finds every candidate
      short of RAM or disk, and then it names that VM. */
  lemma BuildRaisesIffStuck(c: FileContent, b: Build)
    requires b.Valid() && Loaded(c).Success? && Gathered(b).Success?
    ensures var reqs := Ordered(b.vms, b.overrides, RecordOf(c));
            && (Built(c, b).0.Failure? <==>
                  exists p :: 0 <= p < |reqs| && Stuck(CapacitiesOf(b), b.overrides, RecordOf(c), reqs, p))
            && (Built(c, b).0.Failure? ==>
                  exists p :: 0 <= p < |reqs| && Stuck(CapacitiesOf(b), b.overrides, RecordOf(c), reqs, p) &&
                              Built(c, b).0.error == NoFeasibleNode(reqs[p].key))
  {
    BuiltWhenPlanned(c, b);
    RaisesIffStuck(CapacitiesOf(b), b.overrides, RecordOf(c), Ordered(b.vms, b.overrides, RecordOf(c)));
  }

  // ----- Order independence -----

  /** Neither the order of the VM dict nor the order or repetition of candidate nodes matters. */
  lemma BuildOrderIndependent(c: FileContent, b: Build, b': Build)
    requires b.Valid() && b'.Valid()
    requires SameItems(b.vms, b'.vms)
    requires forall n :: n in b.Nodes() <==> n in b'.Nodes()
    requires b.overrides == b'.overrides && b.readings == b'.readings
    requires b.authOk == b'.authOk && b.StatusFails() == b'.StatusFails() && b.persist == b'.persist
    ensures Built(c, b) == Built(c, b')
  {
    SameGathered(b, b');
    if Loaded(c).Success? {
      SameOrder(b.vms, b'.vms, b.overrides, RecordOf(c));
    }
  }

  lemma SameGathered(b: Build, b': Build)
    requires forall n :: n in b.Nodes() <==> n in b'.Nodes()
    requires b.readings == b'.readings && b.authOk == b'.authOk && b.StatusFails() == b'.StatusFails()
    ensures Gathered(b) == Gathered(b')
  {
    assert b.Nodes() != [] ==> b.Nodes()[0] in b.Nodes();
    assert b'.Nodes() != [] ==> b'.Nodes()[0] in b'.Nodes();
    assert CapacitiesOf(b) == CapacitiesOf(b');
  }

  /** The requests for these keys are the same, whatever the order of the VM dict. */
  lemma SameRequests(vms: seq<Request>, vms': seq<Request>, keys: seq<string>)
    requires SameItems(vms, vms')
    requires forall k | k in keys :: exists p :: p in vms && p.key == k
    requires forall k | k in keys :: exists p :: p in vms' && p.key == k
    ensures Requests(vms, keys) == Requests(vms', keys)
  {
    var reqs, reqs' := Requests(vms, keys), Requests(vms', keys);
    forall i | 0 <= i < |keys| ensures reqs[i] == reqs'[i] {
      assert reqs[i] in vms && reqs'[i] in vms' && reqs'[i] in vms;
      SameKey(vms, reqs[i], reqs'[i]);
    }
  }

  lemma SameOrder(vms: seq<Request>, vms': seq<Request>, overrides: Mapping, record: Mapping)
    requires SameItems(vms, vms')
    ensures Ordered(vms, overrides, record) == Ordered(vms', overrides, record)
    ensures FreshKeys(vms, overrides, record) == FreshKeys(vms', overrides, record)
  {
    SameKeys(vms, vms', overrides, record);
    var keys := KeyOrder(vms, overrides, record);
    KeysRequested(vms, overrides, record);
    KeysRequested(vms', overrides, record);
    SameRequests(vms, vms', keys);
  }

  lemma KeysRequested(vms: seq<Request>, overrides: Mapping, record: Mapping)
    ensures forall k | k in KeyOrder(vms, overrides, record) :: exists p :: p in vms && p.key == k
  {
    LexIsTotalOrder();
  }

  lemma SameKeys(vms: seq<Request>, vms': seq<Request>, overrides: Mapping, record: Mapping)
    requires SameItems(vms, vms')
    ensures Known(vms, overrides, record) == Known(vms', overrides, record)
    ensures FreshKeys(vms, overrides, record) == FreshKeys(vms', overrides, record)
  {
    assert (set q | q in vms && (q.key in overrides || q.key in record) :: q.key) ==
           (set q | q in vms' && (q.key in overrides || q.key in record) :: q.key);
    assert (set q | q in vms && q.key !in overrides && q.key !in record :: q.key) ==
           (set q | q in vms' && q.key !in overrides && q.key !in record :: q.key);
  }

  // ----- The record, over one build and over many -----

  lemma FreshKeysAreFresh(c: FileContent, b: Build, k: string)
    requires Loaded(c).Success?
    ensures k in FreshKeys(b.vms, b.overrides, RecordOf(c)) <==> IsFresh(c, b, k)
  {
    LexIsTotalOrder();
  }

  /** A successful build adds exactly one entry per fresh key to the record it loaded. */
  lemma MemoryRecord(c: FileContent, b: Build)
    requires Succeeds(c, b)
    ensures var before, after := RecordOf(c), PlanOf(c, b).placements;
            && Extends(before, after)
            && (forall k :: k in after && k !in before <==> IsFresh(c, b, k))
            && (forall k | IsFresh(c, b, k) :: k in ChoicesOf(c, b) && after[k] == ChoicesOf(c, b)[k])
  {
    BuildIsPlan(c, b);
    var before, after := RecordOf(c), PlanOf(c, b).placements;
    var reqs := Ordered(b.vms, b.overrides, before);
    OrderedKnownFirst(b.vms, b.overrides, before);
    RecordKept(CapacitiesOf(b), b.overrides, before, reqs);
    RecordKeys(CapacitiesOf(b), b.overrides, before, reqs);
    forall k | IsFresh(c, b, k) ensures k in after && k !in before {
      var i := FreshIndex(c, b, k);
    }
    forall k | k in after && k !in before ensures IsFresh(c, b, k) {
      var i :| 0 <= i < |reqs| && reqs[i].key == k;
      assert reqs[i] in b.vms;
    }
    forall k | IsFresh(c, b, k) ensures k in ChoicesOf(c, b) && after[k] == ChoicesOf(c, b)[k] {
      var q :| q in b.vms && q.key == k;
      EveryVmPlaced(c, b, q);
    }
  }

  /** Hence the record in memory differs from the loaded one exactly when there are fresh keys. */
  lemma MemoryDiffers(c: FileContent, b: Build)
    requires Succeeds(c, b)
    ensures PlanOf(c, b).placements == RecordOf(c) <==> forall k :: !IsFresh(c, b, k)
  {
    MemoryRecord(c, b);
    var before, after := RecordOf(c), PlanOf(c, b).placements;
    if forall k :: !IsFresh(c, b, k) {
      assert after.Keys == before.Keys;
      assert after == before;
    }
  }

  lemma NoFreshKeys(c: FileContent, b: Build)
    requires Loaded(c).Success?
    ensures FreshKeys(b.vms, b.overrides, RecordOf(c)) == [] <==> forall k :: !IsFresh(c, b, k)
  {
    var keys := FreshKeys(b.vms, b.overrides, RecordOf(c));
    forall k ensures k in keys <==> IsFresh(c, b, k) {
      FreshKeysAreFresh(c, b, k);
    }
    assert keys != [] ==> keys[0] in keys;
  }

  lemma NothingFresh(c: FileContent, b: Build)
    requires Succeeds(c, b) && FreshKeys(b.vms, b.overrides, RecordOf(c)) == []
    ensures PlanOf(c, b).placements == RecordOf(c)
  {
    MemoryDiffers(c, b);
    NoFreshKeys(c, b);
  }

  /** Saving only then still leaves disk equal to memory after a real build, in canonical form if there was a fresh
      key and untouched if not; a preview or failed build leaves the file as it was, even though planning changed
      the record in memory. */
  lemma DiskRecord(c: FileContent, b: Build)
    requires b.Valid()
    ensures !Succeeds(c, b) || !b.persist ==> Built(c, b).1 == c
    ensures Succeeds(c, b) && b.persist ==>
              && Loaded(Built(c, b).1) == Success(PlanOf(c, b).placements)
              && if exists k :: IsFresh(c, b, k) then IsCanonical(Built(c, b).1) else Built(c, b).1 == c
  {
    if Succeeds(c, b) {
      BuiltIsPlan(c, b);
      SavedUnique(Saved(PlanOf(c, b).placements), PlanOf(c, b).placements);
      NoFreshKeys(c, b);
      if FreshKeys(b.vms, b.overrides, RecordOf(c)) == [] {
        NothingFresh(c, b);
      }
    }
  }

  lemma BuildGrows(c: FileContent, b: Build)
    requires b.Valid() && Loaded(c).Success?
    ensures Loaded(Built(c, b).1).Success? && Extends(RecordOf(c), RecordOf(Built(c, b).1))
  {
    DiskRecord(c, b);
    if Succeeds(c, b) {
      MemoryRecord(c, b);
    }
  }

  /** The record file after a sequence of builds: real, preview or failing. */
  ghost function FileAfter(c: FileContent, builds: seq<Build>): FileContent {
    if builds == [] then c else Built(FileAfter(c, builds[..|builds| - 1]), builds[|builds| - 1]).1
  }

  lemma ExtendsFurther(a: Mapping, b: Mapping, c: Mapping)
    requires Extends(a, b) && Extends(b, c)
    ensures Extends(a, c)
  {
  }

  /** Entries of a loadable record survive every later build unchanged. */
  lemma {:induction false} FileOnlyGrows(c: FileContent, builds: seq<Build>, i: nat)
    requires i <= |builds| && forall b | b in builds :: b.Valid()
    requires Loaded(FileAfter(c, builds[..i])).Success?
    ensures Loaded(FileAfter(c, builds)).Success?
    ensures Extends(RecordOf(FileAfter(c, builds[..i])), RecordOf(FileAfter(c, builds)))
  {
    hide Built, Loaded;
    if i == |builds| {
      assert builds[..i] == builds;
    } else {
      var last := |builds| - 1;
      assert builds[..last][..i] == builds[..i];
      assert builds[last] in builds;
      FileOnlyGrows(c, builds[..last], i);
      BuildGrows(FileAfter(c, builds[..last]), builds[last]);
      ExtendsFurther(RecordOf(FileAfter(c, builds[..i])), RecordOf(FileAfter(c, builds[..last])),
                     RecordOf(FileAfter(c, builds)));
    }
  }

  /** A real build leaves every VM it placed without an override on record, where it placed it. */
  lemma BuildSticks(c: FileContent, b: Build, q: Request)
    requires Succeeds(c, b) && b.persist && q in b.vms && q.key !in b.overrides
    ensures Loaded(Built(c, b).1).Success?
    ensures q.key in ChoicesOf(c, b) && q.key in RecordOf(Built(c, b).1)
    ensures RecordOf(Built(c, b).1)[q.key] == ChoicesOf(c, b)[q.key]
  {
    EveryVmPlaced(c, b, q);
    DiskRecord(c, b);
  }

  lemma FileAfterStep(c: FileContent, builds: seq<Build>, i: nat)
    requires i < |builds|
    ensures FileAfter(c, builds[..i + 1]) == Built(FileAfter(c, builds[..i]), builds[i]).1
  {
    assert builds[..i + 1][..i] == builds[..i];
  }

  /** A VM placed without an override by a real build is on the same node in every later successful build. */
  lemma PlacementStable(c: FileContent, builds: seq<Build>, i: nat, j: nat, q: Request, q': Request)
    requires i < j < |builds| && forall b | b in builds :: b.Valid()
    requires Succeeds(FileAfter(c, builds[..i]), builds[i]) && builds[i].persist
    requires Succeeds(FileAfter(c, builds[..j]), builds[j])
    requires q in builds[i].vms && q.key !in builds[i].overrides
    requires q' in builds[j].vms && q'.key == q.key && q.key !in builds[j].overrides
    ensures q.key in ChoicesOf(FileAfter(c, builds[..i]), builds[i])
    ensures q.key in ChoicesOf(FileAfter(c, builds[..j]), builds[j])
    ensures ChoicesOf(FileAfter(c, builds[..j]), builds[j])[q.key] ==
            ChoicesOf(FileAfter(c, builds[..i]), builds[i])[q.key]
  {
    hide Built, Loaded, FileAfter;
    BuildSticks(FileAfter(c, builds[..i]), builds[i], q);
    FileAfterStep(c, builds, i);
    assert builds[..j][..i + 1] == builds[..i + 1];
    FileOnlyGrows(c, builds[..j], i + 1);
    EveryVmPlaced(FileAfter(c, builds[..j]), builds[j], q');
  }
}
