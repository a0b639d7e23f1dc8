/** `_plan`, `PlacementRecord` and `plan_placement` as they run: occupancy counters and a record
    updated request by request, and a record file that is written at most once per build. */
module Planner {
  import opened Wrappers
  import opened Ordering
  import opened Placement
  import opened Allocation

  // ----- The record file -----

  /** A member's value: a string, or anything else with the text that `str` makes of it. */
  datatype JsonValue = JsonString(text: string) | JsonOther(text: string)

  type Members = seq<(string, JsonValue)>

  /** `Pairs` is a JSON object, as its list of members. */
  datatype FileContent = Missing | Unreadable | NotAnObject | Pairs(members: Members)

  datatype Error = BadRecord | AuthFailed | StatusUnread | NoNodes | CapacityUnread | NoFeasibleNode(key: string)

  /** `{str(k): str(v) for ...}`; later members win, as in a Python dict. */
  function ToMap(members: Members): Mapping {
    if members == [] then map[]
    else ToMap(members[..|members| - 1])[members[|members| - 1].0 := members[|members| - 1].1.text]
  }

  function Loaded(c: FileContent): Result<Mapping, Error> {
    match c
    case Missing => Success(map[])
    case Pairs(members) => Success(ToMap(members))
    case _ => Failure(BadRecord)
  }

  function SortedKeys(keys: set<string>): (r: seq<string>)
    ensures forall k :: k in r <==> k in keys
    ensures StrictlySorted(StringLe, r) && |r| == |keys|
  {
    LexIsTotalOrder();
    StringsSorted(keys);
    SortedSet(LexLe, keys)
  }

  /** The members `save` writes for these keys, in their order. */
  function Written(keys: seq<string>, m: Mapping): (members: Members)
    requires forall k | k in keys :: k in m
    ensures |members| == |keys|
    ensures forall i | 0 <= i < |keys| :: keys[i] in m && members[i] == (keys[i], JsonString(m[keys[i]]))
  {
    seq(|keys|, i requires 0 <= i < |keys| => assert keys[i] in keys; (keys[i], JsonString(m[keys[i]])))
  }

  function Saved(m: Mapping): FileContent {
    Pairs(Written(SortedKeys(m.Keys), m))
  }

  lemma {:induction false} WrittenReadBack(keys: seq<string>, m: Mapping)
    requires forall k | k in keys :: k in m
    ensures ToMap(Written(keys, m)) == map k | k in keys :: m[k]
  {
    if keys != [] {
      var init, last := keys[..|keys| - 1], keys[|keys| - 1];
      assert keys == init + [last];
      WrittenReadBack(init, m);
      assert Written(keys, m)[..|keys| - 1] == Written(init, m);
    }
  }

  ghost predicate IsLast(members: Members, i: int) {
    0 <= i < |members| && forall j | i < j < |members| :: members[j].0 != members[i].0
  }

  ghost predicate HasKey(members: Members, k: string) {
    exists i :: 0 <= i < |members| && members[i].0 == k
  }

  lemma {:induction false} ToMapKeys(members: Members, k: string)
    ensures k in ToMap(members) <==> HasKey(members, k)
  {
    if members != [] {
      var init, last := members[..|members| - 1], |members| - 1;
      ToMapKeys(init, k);
      if HasKey(init, k) {
        var i :| 0 <= i < |init| && init[i].0 == k;
        assert members[i].0 == k;
      }
      if HasKey(members, k) && members[last].0 != k {
        var i :| 0 <= i < |members| && members[i].0 == k;
        assert init[i].0 == k;
      }
    }
  }

  lemma {:induction false} ToMapLast(members: Members, i: int)
    requires IsLast(members, i)
    ensures members[i].0 in ToMap(members) && ToMap(members)[members[i].0] == members[i].1.text
  {
    var init := members[..|members| - 1];
    if i < |init| {
      assert forall j | i < j < |init| :: init[j] == members[j];
      ToMapLast(init, i);
      assert members[|init|].0 != members[i].0;
    }
  }

  /** What `load` makes of the file: nothing of a missing one, an error of one that is unreadable or no object, and
      otherwise its members, the last one of a key winning. */
  lemma LoadedExactly(c: FileContent)
    ensures Loaded(Missing) == Success(map[])
    ensures Loaded(c).Failure? <==> c.Unreadable? || c.NotAnObject?
    ensures Loaded(c).Failure? ==> Loaded(c).error == BadRecord
    ensures c.Pairs? ==>
              && (forall k :: k in Loaded(c).value <==> HasKey(c.members, k))
              && (forall i | IsLast(c.members, i) ::
                    c.members[i].0 in Loaded(c).value && Loaded(c).value[c.members[i].0] == c.members[i].1.text)
  {
    if c.Pairs? {
      forall k { ToMapKeys(c.members, k); }
      forall i | IsLast(c.members, i)
        ensures c.members[i].0 in Loaded(c).value && Loaded(c).value[c.members[i].0] == c.members[i].1.text {
        ToMapLast(c.members, i);
      }
    }
  }

  /** Saving a record and loading it again gives the record back. */
  lemma LoadSaved(m: Mapping)
    ensures Loaded(Saved(m)) == Success(m)
  {
    hide SortedKeys, Written;
    var keys := SortedKeys(m.Keys);
    WrittenReadBack(keys, m);
    assert forall k :: k in keys <==> k in m;
    assert (map k | k in keys :: m[k]) == m;
  }

  /** A record has one saved form: same entries, same bytes. */
  lemma SavedInjective(m: Mapping, m': Mapping)
    ensures Saved(m) == Saved(m') <==> m == m'
  {
    hide SortedKeys, Written;
    LoadSaved(m);
    LoadSaved(m');
  }

  ghost function KeysIn(members: Members): (keys: seq<string>)
    ensures |keys| == |members| && forall i | 0 <= i < |keys| :: keys[i] == members[i].0
  {
    seq(|members|, i requires 0 <= i < |members| => members[i].0)
  }

  /** An object of strings with its keys in strictly ascending order. */
  ghost predicate IsCanonical(c: FileContent) {
    && c.Pairs? && StrictlySorted(StringLe, KeysIn(c.members))
    && forall i | 0 <= i < |c.members| :: c.members[i].1.JsonString?
  }

  lemma {:induction false} ToMapOfDistinct(members: Members)
    requires NoRepeats(KeysIn(members))
    ensures forall k :: k in ToMap(members) <==> k in KeysIn(members)
    ensures forall i | 0 <= i < |members| :: ToMap(members)[members[i].0] == members[i].1.text
  {
    if members != [] {
      var init, last := members[..|members| - 1], members[|members| - 1];
      assert KeysIn(members) == KeysIn(init) + [last.0];
      ToMapOfDistinct(init);
      assert forall i | 0 <= i < |init| :: KeysIn(members)[i] != KeysIn(members)[|init|];
    }
  }

  /** The saved form is the only canonical one that loads as the record. */
  lemma SavedUnique(c: FileContent, m: Mapping)
    ensures IsCanonical(c) && Loaded(c) == Success(m) <==> c == Saved(m)
  {
    hide SortedKeys;
    LoadSaved(m);
    var keys := SortedKeys(m.Keys);
    assert KeysIn(Saved(m).members) == keys;
    if IsCanonical(c) && Loaded(c) == Success(m) {
      ToMapOfDistinct(c.members);
      StringLeIsTotalOrder();
      StrictlySortedUnique(StringLe, KeysIn(c.members), keys);
      assert c.members == Written(keys, m);
    }
  }

  class RecordFile {
    var content: FileContent

    constructor (c: FileContent)
      ensures content == c
    {
      content := c;
    }
  }

  class PlacementRecord {
    const file: RecordFile
    var placements: Mapping

    constructor (file: RecordFile)
      ensures this.file == file && placements == map[]
    {
      this.file := file;
      placements := map[];
    }

    static method Load(file: RecordFile) returns (r: Result<PlacementRecord, Error>)
      ensures Loaded(file.content).Success? <==> r.Success?
      ensures r.Success? ==> fresh(r.value) && r.value.file == file &&
                             Loaded(file.content) == Success(r.value.placements)
      ensures r.Failure? ==> Loaded(file.content) == Failure(r.error)
    {
      var record := new PlacementRecord(file);
      match file.content {
        case Missing =>
        case Pairs(members) => record.placements := ToMap(members);
        case Unreadable => return Failure(BadRecord);
        case NotAnObject => return Failure(BadRecord);
      }
      r := Success(record);
    }

    method Save()
      modifies file
      ensures Loaded(file.content) == Success(placements) && IsCanonical(file.content)
    {
      SavedUnique(Saved(placements), placements);
      file.content := Saved(placements);
    }
  }

  // ----- _plan -----

  /** `min(candidates, key=...)`: most free RAM, then most free disk, then the first name. */
  function MinCandidate(cs: seq<Candidate>): (r: Candidate)
    requires cs != []
    ensures r in cs && forall c | c in cs :: KeyLe(r, c)
    ensures forall c | c in cs ::
              r.ram > c.ram || (r.ram == c.ram && (r.disk > c.disk || (r.disk == c.disk && StringLe(r.name, c.name))))
  {
    StringOrder();
    if |cs| == 1 then
      KeyLeTotal(cs[0], cs[0], cs[0]);
      cs[0]
    else
      var m := MinCandidate(cs[1..]);
      var r := if KeyLe(cs[0], m) then cs[0] else m;
      assert forall c | c in cs :: KeyLe(r, c) by {
        forall c | c in cs ensures KeyLe(r, c) {
          KeyLeTotal(cs[0], m, c);
          KeyLeTotal(cs[0], cs[0], cs[0]);
          assert c == cs[0] || c in cs[1..];
        }
      }
      r
  }

  /** `{n: 0 for n in capacities}`. */
  function Zeros(items: seq<NodeCapacity>): (z: map<string, int>)
    ensures z.Keys == CapMap(items).Keys && forall n | n in z :: z[n] == 0
  {
    if items == [] then map[] else Zeros(items[..|items| - 1])[items[|items| - 1].name := 0]
  }

  /** The running counters hold the exact sums of the requests assigned so far. */
  ghost predicate Tracks(occupied: map<string, int>, res: Resource, caps: Capacities,
                         done: seq<Request>, nodes: seq<string>)
    requires |done| == |nodes|
  {
    occupied.Keys == caps.Keys && forall n | n in caps :: occupied[n] == UsedOn(res, done, nodes, n)
  }

  function Charge(occupied: map<string, int>, node: string, amount: nat): map<string, int> {
    if node in occupied then occupied[node := occupied[node] + amount] else occupied
  }

  lemma ChargeTracks(occupied: map<string, int>, res: Resource, caps: Capacities,
                     reqs: seq<Request>, nodes: seq<string>, i: nat, node: string)
    requires i == |nodes| < |reqs| && Tracks(occupied, res, caps, reqs[..i], nodes)
    ensures Tracks(Charge(occupied, node, reqs[i].Need(res)), res, caps, reqs[..i + 1], nodes + [node])
  {
    forall n { UsedStep(res, reqs, nodes, i, node, n); }
  }

  /** The feasible nodes with what the running occupancy leaves on them. */
  method Candidates(req: Request, capacities: seq<NodeCapacity>,
                    occupiedRam: map<string, int>, occupiedDisk: map<string, int>,
                    ghost caps: Capacities, ghost done: seq<Request>, ghost nodes: seq<string>)
      returns (candidates: seq<Candidate>)
    requires Represents(capacities, caps) && |done| == |nodes|
    requires Tracks(occupiedRam, Ram, caps, done, nodes) && Tracks(occupiedDisk, Disk, caps, done, nodes)
    ensures forall c | c in candidates ::
              Fits(caps, done, nodes, req, c.name) && c == CandidateOf(caps, done, nodes, c.name)
    ensures forall n | Fits(caps, done, nodes, req, n) :: CandidateOf(caps, done, nodes, n) in candidates
  {
    candidates := [];
    for j := 0 to |capacities|
      invariant forall c | c in candidates ::
                  Fits(caps, done, nodes, req, c.name) && c == CandidateOf(caps, done, nodes, c.name)
      invariant forall k | 0 <= k < j && Fits(caps, done, nodes, req, capacities[k].name) ::
                  CandidateOf(caps, done, nodes, capacities[k].name) in candidates
    {
      var cap := capacities[j];
      var freeRam := cap.freeRam - occupiedRam[cap.name];
      var freeDisk := cap.freeDisk - occupiedDisk[cap.name];
      if !(freeRam < req.ram || freeDisk < req.disk) {
        candidates := candidates + [Candidate(cap.name, freeRam, freeDisk)];
      }
    }
    forall n | Fits(caps, done, nodes, req, n) ensures CandidateOf(caps, done, nodes, n) in candidates {
      var k :| 0 <= k < |capacities| && capacities[k].name == n;
    }
  }

  lemma MinIsPick(caps: Capacities, done: seq<Request>, nodes: seq<string>, req: Request, cs: seq<Candidate>)
    requires |done| == |nodes|
    requires forall c | c in cs :: Fits(caps, done, nodes, req, c.name) && c == CandidateOf(caps, done, nodes, c.name)
    requires forall n | Fits(caps, done, nodes, req, n) :: CandidateOf(caps, done, nodes, n) in cs
    ensures cs == [] ==> forall n :: !Fits(caps, done, nodes, req, n)
    ensures cs != [] ==> (exists n :: Fits(caps, done, nodes, req, n)) &&
                         MinCandidate(cs).name == Pick(caps, done, nodes, req)
  {
    if cs != [] {
      var m := MinCandidate(cs);
      assert Best(caps, done, nodes, req, m.name);
      BestUnique(caps, done, nodes, req, m.name, Pick(caps, done, nodes, req));
    }
  }

  /** Counters, choices and record agree with the plan of the requests handled so far. */
  ghost predicate Progress(caps: Capacities, overrides: Mapping, start: Mapping, done: seq<Request>, nodes: seq<string>,
                           placements: Mapping, choices: Mapping,
                           occupiedRam: map<string, int>, occupiedDisk: map<string, int>)
    requires |done| == |nodes|
  {
    && Plan(caps, overrides, start, done) == Planned(nodes, placements)
    && choices == Choices(done, nodes)
    && Tracks(occupiedRam, Ram, caps, done, nodes)
    && Tracks(occupiedDisk, Disk, caps, done, nodes)
  }

  lemma Advance(caps: Capacities, overrides: Mapping, start: Mapping, reqs: seq<Request>, i: nat, nodes: seq<string>,
                placements: Mapping, choices: Mapping,
                occupiedRam: map<string, int>, occupiedDisk: map<string, int>, placements': Mapping, node: string)
    requires i == |nodes| < |reqs|
    requires Progress(caps, overrides, start, reqs[..i], nodes, placements, choices, occupiedRam, occupiedDisk)
    requires Next(caps, overrides, reqs[..i], nodes, placements, reqs[i]) == Planned(nodes + [node], placements')
    ensures Progress(caps, overrides, start, reqs[..i + 1], nodes + [node], placements', choices[reqs[i].key := node],
                     Charge(occupiedRam, node, reqs[i].ram), Charge(occupiedDisk, node, reqs[i].disk))
  {
    PlanStep(caps, overrides, start, reqs, i);
    ChargeTracks(occupiedRam, Ram, caps, reqs, nodes, i, node);
    ChargeTracks(occupiedDisk, Disk, caps, reqs, nodes, i, node);
    ChoicesStep(reqs, nodes, i, node);
  }

  lemma ChoicesStep(reqs: seq<Request>, nodes: seq<string>, i: nat, node: string)
    requires i == |nodes| < |reqs|
    ensures Choices(reqs[..i + 1], nodes + [node]) == Choices(reqs[..i], nodes)[reqs[i].key := node]
  {
    assert reqs[..i + 1][..i] == reqs[..i] && (nodes + [node])[..i] == nodes;
  }

  method PlanRequests(requests: seq<Request>, capacities: seq<NodeCapacity>,
                      record: PlacementRecord, overrides: Mapping)
      returns (r: Result<Mapping, Error>)
    requires DistinctNames(capacities)
    modifies record`placements
    ensures var o := Plan(CapMap(capacities), overrides, old(record.placements), requests);
            && record.placements == o.placements
            && r == if o.Planned? then Success(Choices(requests, o.nodes)) else Failure(NoFeasibleNode(o.key))
  {
    ghost var caps, start := CapMap(capacities), record.placements;
    CapMapRepresents(capacities);
    var occupiedRam, occupiedDisk := Zeros(capacities), Zeros(capacities);
    var choices: Mapping := map[];
    ghost var nodes: seq<string> := [];
    for i := 0 to |requests|
      invariant |nodes| == i
      invariant Progress(caps, overrides, start, requests[..i], nodes, record.placements, choices, occupiedRam,
                occupiedDisk)
    {
      var req := requests[i];
      ghost var before := record.placements;
      PlanStep(caps, overrides, start, requests, i);
      var node;
      if req.key in overrides {
        node := overrides[req.key];
      } else if req.key in record.placements {
        node := record.placements[req.key];
      } else {
        var candidates := Candidates(req, capacities, occupiedRam, occupiedDisk, caps, requests[..i], nodes);
        MinIsPick(caps, requests[..i], nodes, req, candidates);
        if candidates == [] {
          RaisedStays(caps, overrides, start, requests, i + 1);
          return Failure(NoFeasibleNode(req.key));
        }
        node := MinCandidate(candidates).name;
        record.placements := record.placements[req.key := node];
      }
      Advance(caps, overrides, start, requests, i, nodes, before, choices, occupiedRam, occupiedDisk,
              record.placements, node);
      choices := choices[req.key := node];
      occupiedRam := Charge(occupiedRam, node, req.ram);
      occupiedDisk := Charge(occupiedDisk, node, req.disk);
      nodes := nodes + [node];
    }
    assert requests[..|requests|] == requests;
    return Success(choices);
  }

  lemma {:induction false} RaisedStays(caps: Capacities, overrides: Mapping, record: Mapping, reqs: seq<Request>,
                                       i: nat)
    requires i <= |reqs| && Plan(caps, overrides, record, reqs[..i]).Infeasible?
    ensures Plan(caps, overrides, record, reqs) == Plan(caps, overrides, record, reqs[..i])
  {
    if i == |reqs| {
      assert reqs[..i] == reqs;
    } else {
      var last := |reqs| - 1;
      assert reqs[..last][..i] == reqs[..i];
      RaisedStays(caps, overrides, record, reqs[..last], i);
    }
  }

  // ----- plan_placement -----

  /** One call of `plan_placement` and what the cluster answers during it.
      `vms` is a dict in insertion order; `onlineNodes` is `None` when the cluster status cannot be read; a name
      missing from `readings` is a failed capacity query. */
  datatype Build = Build(vms: seq<Request>, overrides: Mapping, candidateNodes: seq<string>,
                         authOk: bool, onlineNodes: Option<seq<string>>, readings: Capacities, persist: bool)
  {
    ghost predicate Valid() {
      DistinctKeys(vms) && forall n | n in readings :: readings[n].name == n
    }

    function Nodes(): seq<string> {
      if candidateNodes != [] then candidateNodes else if onlineNodes.Some? then onlineNodes.value else []
    }

    /** The cluster is only asked when the caller names no candidates. */
    predicate StatusFails() {
      candidateNodes == [] && onlineNodes.None?
    }
  }

  function ReadAll(names: seq<string>, readings: Capacities): (items: seq<NodeCapacity>)
    requires forall n | n in names :: n in readings && readings[n].name == n
    ensures |items| == |names| && forall i | 0 <= i < |items| :: items[i].name == names[i]
  {
    seq(|names|, i requires 0 <= i < |names| => readings[names[i]])
  }

  function Known(vms: seq<Request>, overrides: Mapping, record: Mapping): seq<string> {
    SortedKeys(set q | q in vms && (q.key in overrides || q.key in record) :: q.key)
  }

  function FreshKeys(vms: seq<Request>, overrides: Mapping, record: Mapping): seq<string> {
    SortedKeys(set q | q in vms && q.key !in overrides && q.key !in record :: q.key)
  }

  /** `vm_ram_disk[k]` as a request. */
  function Lookup(vms: seq<Request>, key: string): (q: Request)
    requires exists p :: p in vms && p.key == key
    ensures q in vms && q.key == key
  {
    if vms[0].key == key then vms[0] else Lookup(vms[1..], key)
  }

  function Requests(vms: seq<Request>, keys: seq<string>): (reqs: seq<Request>)
    requires forall k | k in keys :: exists p :: p in vms && p.key == k
    ensures |reqs| == |keys| && forall i | 0 <= i < |keys| :: reqs[i] in vms && reqs[i].key == keys[i]
  {
    seq(|keys|, i requires 0 <= i < |keys| =>
      assert keys[i] in keys; Lookup(vms, keys[i]))
  }

  function Ordered(vms: seq<Request>, overrides: Mapping, record: Mapping): (reqs: seq<Request>) {
    LexIsTotalOrder();
    Requests(vms, Known(vms, overrides, record) + FreshKeys(vms, overrides, record))
  }

  ghost function CapacitiesOf(b: Build): Capacities {
    map n | n in b.Nodes() && n in b.readings :: b.readings[n]
  }

  lemma CapacityDict(b: Build)
    requires b.Valid() && forall n | n in b.Nodes() :: n in b.readings
    ensures DistinctNames(ReadAll(Firsts(b.Nodes()), b.readings))
    ensures CapMap(ReadAll(Firsts(b.Nodes()), b.readings)) == CapacitiesOf(b)
  {
    FirstsDistinct(b.Nodes());
    var names := Firsts(b.Nodes());
    var items := ReadAll(names, b.readings);
    forall i | 0 <= i < |items| ensures items[i].name in CapacitiesOf(b) && CapacitiesOf(b)[items[i].name] == items[i] {
      assert names[i] in names;
    }
    forall n | n in CapacitiesOf(b) ensures Named(items, n) {
      assert n in names;
      var i :| 0 <= i < |names| && names[i] == n;
      assert items[i].name == n;
    }
    CapMapRepresents(items);
    RepresentsUnique(items, CapMap(items), CapacitiesOf(b));
  }

  /** The candidate set with its headroom, or why there is none. */
  ghost function Gathered(b: Build): Result<Capacities, Error> {
    if !b.authOk then Failure(AuthFailed)
    else if b.StatusFails() then Failure(StatusUnread)
    else if b.Nodes() == [] then Failure(NoNodes)
    else if exists n :: n in b.Nodes() && n !in b.readings then Failure(CapacityUnread)
    else Success(CapacitiesOf(b))
  }

  method Gather(b: Build) returns (r: Result<seq<NodeCapacity>, Error>)
    requires b.Valid()
    ensures r.Failure? ==> Gathered(b) == Failure(r.error)
    ensures r.Success? ==> Gathered(b) == Success(CapMap(r.value)) && DistinctNames(r.value)
  {
    if !b.authOk {
      return Failure(AuthFailed);
    }
    if b.StatusFails() {
      return Failure(StatusUnread);
    }
    var nodes := b.Nodes();
    if nodes == [] {
      return Failure(NoNodes);
    }
    if n :| n in nodes && n !in b.readings {
      return Failure(CapacityUnread);
    }
    CapacityDict(b);
    r := Success(ReadAll(Firsts(nodes), b.readings));
  }

  /** The plan, and the record file afterwards: rewritten only by a real build with new keys. */
  ghost function Decided(c: FileContent, caps: Capacities, overrides: Mapping, record: Mapping,
                         reqs: seq<Request>, newKeys: seq<string>, persist: bool): (Result<Mapping, Error>, FileContent)
  {
    var o := Plan(caps, overrides, record, reqs);
    if o.Infeasible? then (Failure(NoFeasibleNode(o.key)), c)
    else (Success(Choices(reqs, o.nodes)), if persist && newKeys != [] then Saved(o.placements) else c)
  }

  /** What one build returns and leaves in the record file. */
  ghost function Built(c: FileContent, b: Build): (Result<Mapping, Error>, FileContent) {
    var loaded, caps := Loaded(c), Gathered(b);
    if loaded.Failure? then (Failure(loaded.error), c)
    else if caps.Failure? then (Failure(caps.error), c)
    else Decided(c, caps.value, b.overrides, loaded.value, Ordered(b.vms, b.overrides, loaded.value),
                 FreshKeys(b.vms, b.overrides, loaded.value), b.persist)
  }

  method PlanPlacement(file: RecordFile, b: Build) returns (r: Result<Mapping, Error>)
    requires b.Valid()
    modifies file
    ensures (r, file.content) == Built(old(file.content), b)
  {
    var load := PlacementRecord.Load(file);
    if load.Failure? {
      return Failure(load.error);
    }
    var record := load.value;
    var capacities := Gather(b);
    if capacities.Failure? {
      return Failure(capacities.error);
    }
    var newKeys := FreshKeys(b.vms, b.overrides, record.placements);
    var requests := Ordered(b.vms, b.overrides, record.placements);
    r := PlanRequests(requests, capacities.value, record, b.overrides);
    if r.Success? && b.persist && newKeys != [] {
      record.Save();
      SavedUnique(file.content, record.placements);
    }
  }
}
