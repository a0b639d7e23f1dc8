/** What the allocator guarantees: spread, capacity safety, success and balance. */
module Allocation {
  import opened Ordering
  import opened Placement

  /** Keys occur once, as they do in a list built from a dict. */
  ghost predicate DistinctKeys(reqs: seq<Request>) {
    forall i, j | 0 <= i < j < |reqs| :: reqs[i].key != reqs[j].key
  }

  /** `reqs[..k]` are already decided; the rest are new, so each is a fresh pick. */
  ghost predicate KnownFirst(overrides: Mapping, record: Mapping, reqs: seq<Request>, k: nat) {
    && k <= |reqs|
    && DistinctKeys(reqs)
    && (forall i | 0 <= i < k :: reqs[i].key in overrides || reqs[i].key in record)
    && (forall i | k <= i < |reqs| :: reqs[i].key !in overrides && reqs[i].key !in record)
  }

  lemma TailIsFresh(caps: Capacities, overrides: Mapping, record: Mapping, reqs: seq<Request>, k: nat, i: nat)
    requires KnownFirst(overrides, record, reqs, k) && k <= i < |reqs|
    requires Plan(caps, overrides, record, reqs).Planned?
    ensures FreshAt(caps, overrides, record, reqs, i)
  {
    PlanPrefix(caps, overrides, record, reqs, i);
    RecordKeys(caps, overrides, record, reqs[..i]);
    assert forall j | 0 <= j < i :: reqs[..i][j] == reqs[j];
  }

  // ----- Best fit -----

  /** A fresh pick has the most free RAM among the nodes that fit; of those the most free disk; of those the
      first name. */
  lemma BestFit(caps: Capacities, overrides: Mapping, record: Mapping, reqs: seq<Request>, i: nat, m: string)
    requires Plan(caps, overrides, record, reqs).Planned?
    requires i < |reqs| && FreshAt(caps, overrides, record, reqs, i)
    requires var nodes := Plan(caps, overrides, record, reqs).nodes;
             m != nodes[i] && Fits(caps, reqs[..i], nodes[..i], reqs[i], m)
    ensures var nodes := Plan(caps, overrides, record, reqs).nodes;
            && Fits(caps, reqs[..i], nodes[..i], reqs[i], nodes[i])
            && var ram := Left(Ram, caps, reqs[..i], nodes[..i], nodes[i]);
               var disk := Left(Disk, caps, reqs[..i], nodes[..i], nodes[i]);
               var ram', disk' := Left(Ram, caps, reqs[..i], nodes[..i], m), Left(Disk, caps, reqs[..i], nodes[..i], m);
               ram >= ram' && (ram == ram' ==> disk >= disk' && (disk == disk' ==> StringLe(nodes[i], m)))
  {
    var nodes := Plan(caps, overrides, record, reqs).nodes;
    FreshIsBest(caps, overrides, record, reqs, i);
    assert KeyLe(CandidateOf(caps, reqs[..i], nodes[..i], nodes[i]), CandidateOf(caps, reqs[..i], nodes[..i], m));
    LexLeIff(nodes[i], m);
  }

  // ----- Spread -----

  /** If the last request on a node was a fresh pick, no node with disk to spare is more than that
      request's RAM ahead of it at the end. */
  lemma SpreadAt(caps: Capacities, overrides: Mapping, record: Mapping, reqs: seq<Request>, i: nat, m: string)
    requires Plan(caps, overrides, record, reqs).Planned?
    requires i < |reqs| && FreshAt(caps, overrides, record, reqs, i)
    requires var nodes := Plan(caps, overrides, record, reqs).nodes;
             && (forall j | i < j < |reqs| :: nodes[j] != nodes[i])
             && m in caps && reqs[i].disk <= Left(Disk, caps, reqs, nodes, m)
    ensures var nodes := Plan(caps, overrides, record, reqs).nodes;
            && nodes[i] in caps
            && Left(Ram, caps, reqs, nodes, m) <= Left(Ram, caps, reqs, nodes, nodes[i]) + reqs[i].ram
  {
    var nodes := Plan(caps, overrides, record, reqs).nodes;
    var n := nodes[i];
    FreshIsBest(caps, overrides, record, reqs, i);
    AfterLast(Ram, reqs, nodes, i);
    UsedPrefix(Ram, reqs, nodes, i, m);
    UsedPrefix(Disk, reqs, nodes, i, m);
    if Fits(caps, reqs[..i], nodes[..i], reqs[i], m) {
      assert KeyLe(CandidateOf(caps, reqs[..i], nodes[..i], n), CandidateOf(caps, reqs[..i], nodes[..i], m));
    }
  }

  /** After the last request on a node its load is the load before it plus that request. */
  lemma AfterLast(res: Resource, reqs: seq<Request>, nodes: seq<string>, i: nat)
    requires i < |reqs| == |nodes|
    requires forall j | i < j < |reqs| :: nodes[j] != nodes[i]
    ensures UsedOn(res, reqs, nodes, nodes[i]) == UsedOn(res, reqs[..i], nodes[..i], nodes[i]) + reqs[i].Need(res)
  {
    UsedPrefix(res, reqs, nodes, i + 1, nodes[i]);
    assert reqs[..i + 1][..i] == reqs[..i] && nodes[..i + 1][..i] == nodes[..i];
  }

  lemma {:induction false} LastOn(nodes: seq<string>, i: nat) returns (j: nat)
    requires i < |nodes|
    ensures i <= j < |nodes| && nodes[j] == nodes[i]
    ensures forall k | j < k < |nodes| :: nodes[k] != nodes[j]
    decreases |nodes| - i
  {
    j := i;
    if k :| i < k < |nodes| && nodes[k] == nodes[i] {
      j := LastOn(nodes, k);
    }
  }

  // ----- Capacity safety -----

  /** A node that receives a fresh pick is within capacity at the end, pins included. */
  lemma CapacitySafe(caps: Capacities, overrides: Mapping, record: Mapping, reqs: seq<Request>, k: nat, i: nat)
    requires KnownFirst(overrides, record, reqs, k) && k <= i < |reqs|
    requires Plan(caps, overrides, record, reqs).Planned?
    ensures var nodes := Plan(caps, overrides, record, reqs).nodes;
            && nodes[i] in caps
            && UsedOn(Ram, reqs, nodes, nodes[i]) <= caps[nodes[i]].freeRam
            && UsedOn(Disk, reqs, nodes, nodes[i]) <= caps[nodes[i]].freeDisk
  {
    var nodes := Plan(caps, overrides, record, reqs).nodes;
    var j := LastOn(nodes, i);
    TailIsFresh(caps, overrides, record, reqs, k, j);
    FreshIsBest(caps, overrides, record, reqs, j);
    AfterLast(Ram, reqs, nodes, j);
    AfterLast(Disk, reqs, nodes, j);
  }

  // ----- When a plan is found -----

  /** The request at which no node fits what is still asked of it. */
  ghost predicate Stuck(caps: Capacities, overrides: Mapping, record: Mapping, reqs: seq<Request>, p: nat)
    requires p < |reqs|
  {
    var o := Plan(caps, overrides, record, reqs[..p]);
    && o.Planned?
    && FreshAt(caps, overrides, record, reqs, p)
    && forall n | n in caps ::
         || Left(Ram, caps, reqs[..p], o.nodes, n) < reqs[p].ram
         || Left(Disk, caps, reqs[..p], o.nodes, n) < reqs[p].disk
  }

  lemma StuckAtLast(caps: Capacities, overrides: Mapping, record: Mapping, reqs: seq<Request>)
    requires reqs != [] && Plan(caps, overrides, record, reqs[..|reqs| - 1]).Planned?
    ensures Plan(caps, overrides, record, reqs).Infeasible? <==>
            Stuck(caps, overrides, record, reqs, |reqs| - 1)
  {
    var done, q := reqs[..|reqs| - 1], reqs[|reqs| - 1];
    var o := Plan(caps, overrides, record, done);
    if m :| Fits(caps, done, o.nodes, q, m) {
      assert m in caps;
    } else {
      forall n | n in caps
        ensures Left(Ram, caps, done, o.nodes, n) < q.ram || Left(Disk, caps, done, o.nodes, n) < q.disk
      {
        assert !Fits(caps, done, o.nodes, q, n);
      }
    }
  }

  lemma StuckPrefix(caps: Capacities, overrides: Mapping, record: Mapping, reqs: seq<Request>, k: nat, p: nat)
    requires p < k <= |reqs|
    ensures Stuck(caps, overrides, record, reqs[..k], p) <==> Stuck(caps, overrides, record, reqs, p)
  {
    assert reqs[..k][..p] == reqs[..p];
  }

  /** Planning raises exactly when some request finds every node short of RAM or disk. */
  lemma {:induction false} RaisesIffStuck(caps: Capacities, overrides: Mapping, record: Mapping, reqs: seq<Request>)
    ensures var o := Plan(caps, overrides, record, reqs);
            if o.Infeasible? then
              Stuck(caps, overrides, record, reqs, |o.nodes|) && reqs[|o.nodes|].key == o.key
            else
              forall p | 0 <= p < |reqs| :: !Stuck(caps, overrides, record, reqs, p)
  {
    if reqs != [] {
      var last := |reqs| - 1;
      RaisesIffStuck(caps, overrides, record, reqs[..last]);
      forall p | 0 <= p < last
        ensures Stuck(caps, overrides, record, reqs[..last], p) <==> Stuck(caps, overrides, record, reqs, p)
      {
        StuckPrefix(caps, overrides, record, reqs, last, p);
      }
      var o := Plan(caps, overrides, record, reqs[..last]);
      if o.Planned? {
        StuckAtLast(caps, overrides, record, reqs);
      }
    }
  }

  ghost predicate DistinctNames(items: seq<NodeCapacity>) {
    forall i, j | 0 <= i < j < |items| :: items[i].name != items[j].name
  }

  function CapMap(items: seq<NodeCapacity>): Capacities {
    if items == [] then map[]
    else CapMap(items[..|items| - 1])[items[|items| - 1].name := items[|items| - 1]]
  }

  /** The dict holds exactly the listed nodes. */
  ghost predicate Represents(items: seq<NodeCapacity>, caps: Capacities) {
    && (forall i | 0 <= i < |items| :: items[i].name in caps && caps[items[i].name] == items[i])
    && (forall n | n in caps :: Named(items, n))
  }

  ghost predicate Named(items: seq<NodeCapacity>, n: string) {
    exists i :: 0 <= i < |items| && items[i].name == n
  }

  lemma NamedStep(items: seq<NodeCapacity>, last: NodeCapacity, n: string)
    ensures Named(items + [last], n) <==> Named(items, n) || last.name == n
  {
    if Named(items, n) {
      var i :| 0 <= i < |items| && items[i].name == n;
      assert (items + [last])[i].name == n;
    }
    assert (items + [last])[|items|] == last;
  }

  lemma {:induction false} CapMapNamed(items: seq<NodeCapacity>, n: string)
    ensures n in CapMap(items) <==> Named(items, n)
  {
    if items != [] {
      var init, last := items[..|items| - 1], items[|items| - 1];
      assert items == init + [last];
      CapMapNamed(init, n);
      NamedStep(init, last, n);
    }
  }

  lemma {:induction false} CapMapHolds(items: seq<NodeCapacity>, i: nat)
    requires DistinctNames(items) && i < |items|
    ensures items[i].name in CapMap(items) && CapMap(items)[items[i].name] == items[i]
  {
    if i < |items| - 1 {
      CapMapHolds(items[..|items| - 1], i);
    }
  }

  lemma CapMapRepresents(items: seq<NodeCapacity>)
    requires DistinctNames(items)
    ensures Represents(items, CapMap(items))
  {
    forall i | 0 <= i < |items| ensures items[i].name in CapMap(items) && CapMap(items)[items[i].name] == items[i] {
      CapMapHolds(items, i);
    }
    forall n | n in CapMap(items) ensures Named(items, n) {
      CapMapNamed(items, n);
    }
  }

  lemma RepresentsUnique(items: seq<NodeCapacity>, a: Capacities, b: Capacities)
    requires Represents(items, a) && Represents(items, b)
    ensures a == b
  {
    forall n ensures (n in a <==> n in b) && (n in a ==> a[n] == b[n]) {
      if n in a || n in b {
        assert Named(items, n);
        var i :| 0 <= i < |items| && items[i].name == n;
      }
    }
  }

  ghost function TotalFree(items: seq<NodeCapacity>): int {
    if items == [] then 0 else TotalFree(items[1..]) + items[0].freeRam
  }

  ghost function TotalNeed(res: Resource, reqs: seq<Request>): nat {
    if reqs == [] then 0 else TotalNeed(res, reqs[..|reqs| - 1]) + reqs[|reqs| - 1].Need(res)
  }

  ghost function TotalLoad(items: seq<NodeCapacity>, reqs: seq<Request>, nodes: seq<string>): nat
    requires |reqs| == |nodes|
  {
    if items == [] then 0
    else TotalLoad(items[1..], reqs, nodes) + UsedOn(Ram, reqs, nodes, items[0].name)
  }

  lemma {:induction false} UsedAtMostTotal(res: Resource, reqs: seq<Request>, nodes: seq<string>, n: string)
    requires |reqs| == |nodes|
    ensures UsedOn(res, reqs, nodes, n) <= TotalNeed(res, reqs)
  {
    if reqs != [] {
      UsedAtMostTotal(res, reqs[..|reqs| - 1], nodes[..|reqs| - 1], n);
    }
  }

  lemma {:induction false} TotalNeedPrefix(res: Resource, reqs: seq<Request>, p: nat)
    requires p < |reqs|
    ensures TotalNeed(res, reqs[..p]) + reqs[p].Need(res) <= TotalNeed(res, reqs)
  {
    var last := |reqs| - 1;
    if p < last {
      TotalNeedPrefix(res, reqs[..last], p);
      assert reqs[..last][..p] == reqs[..p];
    }
  }

  /** One more request adds its RAM to at most one of the distinct nodes. */
  lemma {:induction false} TotalLoadStep(items: seq<NodeCapacity>, reqs: seq<Request>, nodes: seq<string>)
    requires DistinctNames(items) && |reqs| == |nodes| > 0
    ensures var last := |reqs| - 1;
            var before := TotalLoad(items, reqs[..last], nodes[..last]);
            && TotalLoad(items, reqs, nodes) <= before + reqs[last].ram
            && ((forall i | 0 <= i < |items| :: items[i].name != nodes[last]) ==>
                  TotalLoad(items, reqs, nodes) == before)
  {
    if items != [] {
      TotalLoadStep(items[1..], reqs, nodes);
      assert forall i | 0 <= i < |items| - 1 :: items[1..][i] == items[i + 1];
    }
  }

  lemma {:induction false} TotalLoadBound(items: seq<NodeCapacity>, reqs: seq<Request>, nodes: seq<string>)
    requires DistinctNames(items) && |reqs| == |nodes|
    ensures TotalLoad(items, reqs, nodes) <= TotalNeed(Ram, reqs)
  {
    if reqs == [] {
      NoLoad(items, reqs, nodes);
    } else {
      TotalLoadBound(items, reqs[..|reqs| - 1], nodes[..|reqs| - 1]);
      TotalLoadStep(items, reqs, nodes);
    }
  }

  lemma {:induction false} NoLoad(items: seq<NodeCapacity>, reqs: seq<Request>, nodes: seq<string>)
    requires reqs == [] && nodes == []
    ensures TotalLoad(items, reqs, nodes) == 0
  {
    if items != [] {
      NoLoad(items[1..], reqs, nodes);
    }
  }

  /** If every node has less than `bound` left, together they have at most `|items| * (bound - 1)`. */
  lemma {:induction false} PigeonHole(items: seq<NodeCapacity>, reqs: seq<Request>, nodes: seq<string>, bound: nat)
    requires |reqs| == |nodes|
    requires forall i | 0 <= i < |items| :: items[i].freeRam - UsedOn(Ram, reqs, nodes, items[i].name) < bound
    ensures TotalFree(items) - TotalLoad(items, reqs, nodes) <= |items| * (bound - 1)
  {
    if items != [] {
      assert forall i | 0 <= i < |items| - 1 :: items[1..][i] == items[i + 1];
      PigeonHole(items[1..], reqs, nodes, bound);
      assert |items| * (bound - 1) == |items[1..]| * (bound - 1) + (bound - 1);
    }
  }

  /** Enough slack for one footprint per node means planning cannot fail. */
  lemma SlackSuffices(items: seq<NodeCapacity>, overrides: Mapping, record: Mapping, reqs: seq<Request>, largest: nat)
    requires DistinctNames(items)
    requires forall q | q in reqs :: q.ram <= largest
    requires items != [] && TotalFree(items) - TotalNeed(Ram, reqs) > |items| * (largest - 1)
    requires forall i | 0 <= i < |items| :: TotalNeed(Disk, reqs) <= items[i].freeDisk
    ensures Plan(CapMap(items), overrides, record, reqs).Planned?
  {
    var caps := CapMap(items);
    var o := Plan(caps, overrides, record, reqs);
    if o.Infeasible? {
      RaisesIffStuck(caps, overrides, record, reqs);
      var p := |o.nodes|;
      var done := reqs[..p];
      var nodes := Plan(caps, overrides, record, done).nodes;
      TotalNeedPrefix(Ram, reqs, p);
      TotalNeedPrefix(Disk, reqs, p);
      CapMapRepresents(items);
      forall i | 0 <= i < |items| ensures items[i].freeRam - UsedOn(Ram, done, nodes, items[i].name) < largest {
        UsedAtMostTotal(Disk, done, nodes, items[i].name);
        assert caps[items[i].name] == items[i];
        assert Left(Ram, caps, done, nodes, items[i].name) < reqs[p].ram;
      }
      PigeonHole(items, done, nodes, largest);
      TotalLoadBound(items, done, nodes);
      assert false;
    }
  }

  // ----- Balance -----

  lemma {:induction false} UniformLoad(res: Resource, reqs: seq<Request>, nodes: seq<string>, n: string, need: nat)
    requires |reqs| == |nodes|
    requires forall q | q in reqs :: q.Need(res) == need
    ensures UsedOn(res, reqs, nodes, n) == need * UsedOn(Head, reqs, nodes, n)
  {
    if reqs != [] {
      var last := |reqs| - 1;
      UniformLoad(res, reqs[..last], nodes[..last], n, need);
      MulLe(need, UsedOn(Head, reqs[..last], nodes[..last], n) + 1, UsedOn(Head, reqs[..last], nodes[..last], n) + 1);
    }
  }

  lemma {:induction false} HeadsSplit(reqs: seq<Request>, nodes: seq<string>, n: string, m: string)
    requires n != m && |reqs| == |nodes|
    ensures UsedOn(Head, reqs, nodes, n) + UsedOn(Head, reqs, nodes, m) <= |nodes|
    ensures UsedOn(Head, reqs, nodes, n) > 0 ==> exists i :: 0 <= i < |nodes| && nodes[i] == n
  {
    if nodes != [] {
      var last := |nodes| - 1;
      HeadsSplit(reqs[..last], nodes[..last], n, m);
      if UsedOn(Head, reqs[..last], nodes[..last], n) > 0 {
        var i :| 0 <= i < last && nodes[..last][i] == n;
        assert nodes[i] == n;
      }
    }
  }

  lemma MulLe(d: nat, a: nat, b: nat)
    requires a <= b
    ensures d * (a - 1) + d == d * a <= d * b
  {
    assert d * (b - a) >= 0;
  }

  lemma CountsClose(r: nat, a: nat, b: nat)
    requires r > 0 && r * a <= r * b + r
    ensures a <= b + 1
  {
    if a >= b + 2 {
      MulLe(r, b + 1, b + 2);
      MulLe(r, b + 2, a);
    }
  }

  lemma RoomForOneMore(d: nat, c: nat, len: nat, free: int)
    requires c < len && d * len <= free
    ensures d <= free - d * c
  {
    MulLe(d, c + 1, len);
  }

  /** A burst of equal VMs on equally free nodes ends with counts differing by at most one. */
  lemma BurstBalanced(caps: Capacities, overrides: Mapping, record: Mapping, reqs: seq<Request>,
                      ram: nat, disk: nat, freeRam: int, n: string, m: string)
    requires KnownFirst(overrides, record, reqs, 0)
    requires Plan(caps, overrides, record, reqs).Planned?
    requires ram > 0 && forall q | q in reqs :: q.ram == ram && q.disk == disk
    requires forall x | x in caps :: caps[x].freeRam == freeRam && disk * |reqs| <= caps[x].freeDisk
    requires n in caps && m in caps
    ensures var nodes := Plan(caps, overrides, record, reqs).nodes;
            UsedOn(Head, reqs, nodes, n) <= UsedOn(Head, reqs, nodes, m) + 1
  {
    var nodes := Plan(caps, overrides, record, reqs).nodes;
    if n != m && UsedOn(Head, reqs, nodes, n) > 0 {
      HeadsSplit(reqs, nodes, n, m);
      var i0 :| 0 <= i0 < |nodes| && nodes[i0] == n;
      var i := LastOn(nodes, i0);
      TailIsFresh(caps, overrides, record, reqs, 0, i);
      UniformLoad(Ram, reqs, nodes, n, ram);
      UniformLoad(Ram, reqs, nodes, m, ram);
      UniformLoad(Disk, reqs, nodes, m, disk);
      assert reqs[i] in reqs;
      var c := UsedOn(Head, reqs, nodes, m);
      RoomForOneMore(disk, c, |reqs|, caps[m].freeDisk);
      SpreadAt(caps, overrides, record, reqs, i, m);
      CountsClose(ram, UsedOn(Head, reqs, nodes, n), c);
    }
  }
}
