/** The online allocator `_plan`, as a function of the requests handled so far. */
module Placement {
  import opened Ordering

  /** What a request uses up on its node; `Head` counts the requests themselves. */
  datatype Resource = Ram | Disk | Head

  datatype NodeCapacity = NodeCapacity(name: string, freeRam: int, freeDisk: int) {
    function Free(res: Resource): int
      requires res != Head
    {
      if res == Ram then freeRam else freeDisk
    }
  }

  datatype Request = Request(key: string, ram: nat, disk: nat) {
    function Need(res: Resource): nat {
      match res case Ram => ram case Disk => disk case Head => 1
    }
  }

  type Mapping = map<string, string>
  type Capacities = map<string, NodeCapacity>

  /** What a node has left, as the tie-break compares it. */
  datatype Candidate = Candidate(name: string, ram: int, disk: int)

  /** The tuple order of `(-ram, -disk, name)`. */
  predicate KeyLe(a: Candidate, b: Candidate) {
    || a.ram > b.ram
    || (a.ram == b.ram && (a.disk > b.disk || (a.disk == b.disk && LexLe(a.name, b.name))))
  }

  lemma KeyLeTotal(a: Candidate, b: Candidate, c: Candidate)
    ensures KeyLe(a, b) || KeyLe(b, a)
    ensures KeyLe(a, b) && KeyLe(b, a) ==> a == b
    ensures KeyLe(a, b) && KeyLe(b, c) ==> KeyLe(a, c)
  {
    LexTotal(a.name, b.name);
    LexIsTotalOrder();
  }

  // ----- Load of a node: the exact sum of what was assigned to it -----

  ghost function UsedOn(res: Resource, reqs: seq<Request>, nodes: seq<string>, n: string): nat
    requires |reqs| == |nodes|
  {
    if reqs == [] then 0
    else
      var last := |reqs| - 1;
      UsedOn(res, reqs[..last], nodes[..last], n) + (if nodes[last] == n then reqs[last].Need(res) else 0)
  }

  /** An integer: pins may overcommit a node. */
  ghost function Left(res: Resource, caps: Capacities, reqs: seq<Request>, nodes: seq<string>, n: string): int
    requires |reqs| == |nodes| && n in caps && res != Head
  {
    caps[n].Free(res) - UsedOn(res, reqs, nodes, n)
  }

  ghost predicate Fits(caps: Capacities, reqs: seq<Request>, nodes: seq<string>, q: Request, n: string)
    requires |reqs| == |nodes|
  {
    n in caps && q.ram <= Left(Ram, caps, reqs, nodes, n) && q.disk <= Left(Disk, caps, reqs, nodes, n)
  }

  ghost function CandidateOf(caps: Capacities, reqs: seq<Request>, nodes: seq<string>, n: string): Candidate
    requires |reqs| == |nodes| && n in caps
  {
    Candidate(n, Left(Ram, caps, reqs, nodes, n), Left(Disk, caps, reqs, nodes, n))
  }

  ghost predicate Best(caps: Capacities, reqs: seq<Request>, nodes: seq<string>, q: Request, n: string)
    requires |reqs| == |nodes|
  {
    && Fits(caps, reqs, nodes, q, n)
    && forall m | Fits(caps, reqs, nodes, q, m) ::
         KeyLe(CandidateOf(caps, reqs, nodes, n), CandidateOf(caps, reqs, nodes, m))
  }

  lemma BestUnique(caps: Capacities, reqs: seq<Request>, nodes: seq<string>, q: Request, n: string, m: string)
    requires |reqs| == |nodes|
    requires Best(caps, reqs, nodes, q, n) && Best(caps, reqs, nodes, q, m)
    ensures n == m
  {
    var c, d := CandidateOf(caps, reqs, nodes, n), CandidateOf(caps, reqs, nodes, m);
    KeyLeTotal(c, d, c);
  }

  lemma {:induction false} BestAmong(caps: Capacities, reqs: seq<Request>, nodes: seq<string>, s: set<string>)
      returns (n: string)
    requires |reqs| == |nodes| && s != {} && s <= caps.Keys
    ensures n in s
    ensures forall m | m in s :: KeyLe(CandidateOf(caps, reqs, nodes, n), CandidateOf(caps, reqs, nodes, m))
  {
    n :| n in s;
    var rest := s - {n};
    var c := CandidateOf(caps, reqs, nodes, n);
    KeyLeTotal(c, c, c);
    if rest != {} {
      var b := BestAmong(caps, reqs, nodes, rest);
      var d := CandidateOf(caps, reqs, nodes, b);
      KeyLeTotal(c, d, c);
      var first := n;
      if !KeyLe(c, d) {
        n := b;
      }
      forall m | m in s
        ensures KeyLe(CandidateOf(caps, reqs, nodes, n), CandidateOf(caps, reqs, nodes, m))
      {
        KeyLeTotal(c, d, CandidateOf(caps, reqs, nodes, m));
        assert m == first || m in rest;
      }
    } else {
      assert s == rest + {n};
    }
  }

  lemma BestExists(caps: Capacities, reqs: seq<Request>, nodes: seq<string>, q: Request, m: string)
    requires |reqs| == |nodes| && Fits(caps, reqs, nodes, q, m)
    ensures exists n :: Best(caps, reqs, nodes, q, n)
  {
    var s := set k | k in caps && Fits(caps, reqs, nodes, q, k);
    assert m in s;
    var b := BestAmong(caps, reqs, nodes, s);
    assert Best(caps, reqs, nodes, q, b);
  }

  /** The node `min(candidates, ...)` selects. */
  ghost function Pick(caps: Capacities, reqs: seq<Request>, nodes: seq<string>, q: Request): (n: string)
    requires |reqs| == |nodes|
    requires exists m :: Fits(caps, reqs, nodes, q, m)
    ensures Best(caps, reqs, nodes, q, n)
  {
    var m :| Fits(caps, reqs, nodes, q, m);
    BestExists(caps, reqs, nodes, q, m);
    var n :| Best(caps, reqs, nodes, q, n);
    n
  }

  // ----- The plan -----

  /** Node per request and the record afterwards; a failed plan keeps what it had recorded so far. */
  datatype Outcome =
    | Planned(nodes: seq<string>, placements: Mapping)
    | Infeasible(nodes: seq<string>, placements: Mapping, key: string)

  /** One turn of the loop: override, else record, else the best feasible node. */
  ghost function Next(caps: Capacities, overrides: Mapping, done: seq<Request>, nodes: seq<string>,
                      placements: Mapping, q: Request): (o: Outcome)
    requires |done| == |nodes|
  {
    if q.key in overrides then Planned(nodes + [overrides[q.key]], placements)
    else if q.key in placements then Planned(nodes + [placements[q.key]], placements)
    else if exists m :: Fits(caps, done, nodes, q, m) then
      var n := Pick(caps, done, nodes, q);
      Planned(nodes + [n], placements[q.key := n])
    else Infeasible(nodes, placements, q.key)
  }

  ghost function Plan(caps: Capacities, overrides: Mapping, record: Mapping, reqs: seq<Request>): (o: Outcome)
    ensures o.Planned? ==> |o.nodes| == |reqs|
    ensures o.Infeasible? ==> |o.nodes| < |reqs|
  {
    if reqs == [] then Planned([], record)
    else
      var done, q := reqs[..|reqs| - 1], reqs[|reqs| - 1];
      var o := Plan(caps, overrides, record, done);
      if o.Infeasible? then o else Next(caps, overrides, done, o.nodes, o.placements, q)
  }

  lemma PlanStep(caps: Capacities, overrides: Mapping, record: Mapping, reqs: seq<Request>, i: nat)
    requires i < |reqs| && Plan(caps, overrides, record, reqs[..i]).Planned?
    ensures var o := Plan(caps, overrides, record, reqs[..i]);
            Plan(caps, overrides, record, reqs[..i + 1]) ==
            Next(caps, overrides, reqs[..i], o.nodes, o.placements, reqs[i])
  {
    assert reqs[..i + 1][..i] == reqs[..i];
  }

  lemma UsedStep(res: Resource, reqs: seq<Request>, nodes: seq<string>, i: nat, node: string, n: string)
    requires i == |nodes| < |reqs|
    ensures UsedOn(res, reqs[..i + 1], nodes + [node], n) ==
            UsedOn(res, reqs[..i], nodes, n) + if node == n then reqs[i].Need(res) else 0
  {
    assert reqs[..i + 1][..i] == reqs[..i] && (nodes + [node])[..i] == nodes;
  }

  /** The `choices` dict: the last assignment of a key wins. */
  function Choices(reqs: seq<Request>, nodes: seq<string>): Mapping
    requires |reqs| == |nodes|
  {
    if reqs == [] then map[]
    else
      var last := |reqs| - 1;
      Choices(reqs[..last], nodes[..last])[reqs[last].key := nodes[last]]
  }

  // ----- Prefixes -----

  lemma {:induction false} UsedPrefix(res: Resource, reqs: seq<Request>, nodes: seq<string>, i: nat, n: string)
    requires i <= |reqs| == |nodes|
    ensures UsedOn(res, reqs[..i], nodes[..i], n) <= UsedOn(res, reqs, nodes, n)
    ensures (forall j | i <= j < |nodes| :: nodes[j] != n) ==>
              UsedOn(res, reqs[..i], nodes[..i], n) == UsedOn(res, reqs, nodes, n)
  {
    if i == |reqs| {
      assert reqs[..i] == reqs && nodes[..i] == nodes;
    } else {
      var last := |reqs| - 1;
      UsedPrefix(res, reqs[..last], nodes[..last], i, n);
      assert reqs[..last][..i] == reqs[..i] && nodes[..last][..i] == nodes[..i];
    }
  }

  lemma {:induction false} PlanPrefix(caps: Capacities, overrides: Mapping, record: Mapping, reqs: seq<Request>, i: nat)
    requires i <= |reqs|
    requires Plan(caps, overrides, record, reqs).Planned?
    ensures Plan(caps, overrides, record, reqs[..i]).Planned?
    ensures Plan(caps, overrides, record, reqs[..i]).nodes == Plan(caps, overrides, record, reqs).nodes[..i]
  {
    if i == |reqs| {
      assert reqs[..i] == reqs;
    } else {
      var last := |reqs| - 1;
      PlanPrefix(caps, overrides, record, reqs[..last], i);
      assert reqs[..last][..i] == reqs[..i];
    }
  }

  /** Request `i` was neither pinned nor on record when its turn came. */
  ghost predicate FreshAt(caps: Capacities, overrides: Mapping, record: Mapping, reqs: seq<Request>, i: nat)
    requires i < |reqs|
  {
    reqs[i].key !in overrides && reqs[i].key !in Plan(caps, overrides, record, reqs[..i]).placements
  }

  lemma FreshIsBest(caps: Capacities, overrides: Mapping, record: Mapping, reqs: seq<Request>, i: nat)
    requires i < |reqs|
    requires Plan(caps, overrides, record, reqs).Planned?
    requires FreshAt(caps, overrides, record, reqs, i)
    ensures var nodes := Plan(caps, overrides, record, reqs).nodes;
            Best(caps, reqs[..i], nodes[..i], reqs[i], nodes[i])
  {
    PlanPrefix(caps, overrides, record, reqs, i);
    PlanPrefix(caps, overrides, record, reqs, i + 1);
    assert reqs[..i + 1][..i] == reqs[..i] && reqs[..i + 1][i] == reqs[i];
    var nodes := Plan(caps, overrides, record, reqs).nodes;
    assert nodes[..i + 1][i] == nodes[i];
  }

  // ----- The record only grows -----

  ghost function KeysOf(reqs: seq<Request>): (s: set<string>)
    ensures forall i | 0 <= i < |reqs| :: reqs[i].key in s
    ensures forall k | k in s :: exists i :: 0 <= i < |reqs| && reqs[i].key == k
  {
    if reqs == [] then {}
    else
      var init := KeysOf(reqs[..|reqs| - 1]);
      assert forall i | 0 <= i < |reqs| - 1 :: reqs[..|reqs| - 1][i] == reqs[i];
      init + {reqs[|reqs| - 1].key}
  }

  ghost predicate Extends(record: Mapping, placements: Mapping) {
    record.Keys <= placements.Keys && forall k | k in record :: placements[k] == record[k]
  }

  lemma {:induction false} RecordKept(caps: Capacities, overrides: Mapping, record: Mapping, reqs: seq<Request>)
    ensures Extends(record, Plan(caps, overrides, record, reqs).placements)
  {
    if reqs != [] {
      RecordKept(caps, overrides, record, reqs[..|reqs| - 1]);
    }
  }

  lemma NextKeys(caps: Capacities, overrides: Mapping, done: seq<Request>, nodes: seq<string>, placements: Mapping,
                 q: Request)
    requires |done| == |nodes| && Next(caps, overrides, done, nodes, placements, q).Planned?
    ensures Next(caps, overrides, done, nodes, placements, q).placements.Keys ==
            placements.Keys + ({q.key} - overrides.Keys)
  {
  }

  lemma {:induction false} RecordKeys(caps: Capacities, overrides: Mapping, record: Mapping, reqs: seq<Request>)
    requires Plan(caps, overrides, record, reqs).Planned?
    ensures Plan(caps, overrides, record, reqs).placements.Keys ==
            record.Keys + (KeysOf(reqs) - overrides.Keys)
  {
    if reqs != [] {
      var done, q := reqs[..|reqs| - 1], reqs[|reqs| - 1];
      RecordKeys(caps, overrides, record, done);
      var o := Plan(caps, overrides, record, done);
      NextKeys(caps, overrides, done, o.nodes, o.placements, q);
      assert KeysOf(reqs) == KeysOf(done) + {q.key};
    }
  }

  /** The node a key ends on: its override, else its record entry. */
  ghost function Resolve(overrides: Mapping, placements: Mapping, key: string): string
    requires key in overrides || key in placements
  {
    if key in overrides then overrides[key] else placements[key]
  }

  ghost predicate Resolved(overrides: Mapping, placements: Mapping, key: string, node: string) {
    (key in overrides || key in placements) && node == Resolve(overrides, placements, key)
  }

  /** Recording one more key does not move a key that was already resolved. */
  lemma NextResolves(caps: Capacities, overrides: Mapping, done: seq<Request>, nodes: seq<string>,
                     placements: Mapping, q: Request)
    requires |done| == |nodes|
    ensures var o := Next(caps, overrides, done, nodes, placements, q);
            && (o.Planned? ==> o.nodes == nodes + [o.nodes[|nodes|]] &&
                               Resolved(overrides, o.placements, q.key, o.nodes[|nodes|]))
            && (forall k, n | Resolved(overrides, placements, k, n) :: Resolved(overrides, o.placements, k, n))
  {
  }

  lemma {:induction false} PlanResolves(caps: Capacities, overrides: Mapping, record: Mapping, reqs: seq<Request>)
    requires Plan(caps, overrides, record, reqs).Planned?
    ensures var o := Plan(caps, overrides, record, reqs);
            forall i | 0 <= i < |reqs| :: Resolved(overrides, o.placements, reqs[i].key, o.nodes[i])
  {
    if reqs != [] {
      var last := |reqs| - 1;
      var done, q := reqs[..last], reqs[last];
      PlanResolves(caps, overrides, record, done);
      var prev := Plan(caps, overrides, record, done);
      NextResolves(caps, overrides, done, prev.nodes, prev.placements, q);
      var o := Plan(caps, overrides, record, reqs);
      forall i | 0 <= i < |reqs| ensures Resolved(overrides, o.placements, reqs[i].key, o.nodes[i]) {
        if i < last {
          assert Resolved(overrides, prev.placements, done[i].key, prev.nodes[i]);
        }
      }
    }
  }

  lemma {:induction false} ChoicesResolve(overrides: Mapping, placements: Mapping, reqs: seq<Request>,
                                          nodes: seq<string>)
    requires |reqs| == |nodes|
    requires forall i | 0 <= i < |reqs| :: Resolved(overrides, placements, reqs[i].key, nodes[i])
    ensures Choices(reqs, nodes).Keys == KeysOf(reqs)
    ensures forall k | k in KeysOf(reqs) :: Resolved(overrides, placements, k, Choices(reqs, nodes)[k])
  {
    if reqs != [] {
      var last := |reqs| - 1;
      ChoicesResolve(overrides, placements, reqs[..last], nodes[..last]);
    }
  }
}
