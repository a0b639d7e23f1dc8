/** Orphan detection and the two-stage removal, as they run against a cluster whose answers are arbitrary. */
module Cleanup {
  import opened Wrappers
  import opened Ordering
  import opened Volumes
  import opened SshSession

  datatype Key = Key(node: string, datastore: string, volume: string)

  /** Storage content per node and datastore. */
  type Store = map<(string, string), seq<Content>>

  // ----- What a removal attempt answers -----

  datatype Exit = NoExit | Text(text: string) | Number(number: int)

  /** One poll of a task: HTTP status, whether it has stopped, and its exit status. */
  datatype Poll = Poll(status: nat, stopped: bool, exit: Exit)

  /** The DELETE response, the polls that follow, and whether the volume is gone after all that. */
  datatype ApiReply = ApiReply(status: nat, upid: string, polls: nat -> Poll, gone: bool)

  /** A session, and whether the volume is gone after it; or no attempt at all. */
  datatype SshReply = Answer(session: Session, gone: bool) | NoPexpect | NoPassword {
    function Error(): string
      requires Answer?
    {
      SessionError(session)
    }
  }

  /** Everything the cluster decides. A node missing from `vmids` has no readable VM list; replies may depend
      on how many attempts were made before. */
  datatype Env = Env(vmids: map<string, set<int>>, unreadable: set<(string, string)>,
                     api: (nat, Key) -> ApiReply, ssh: (nat, Key) -> SshReply, fallback: bool)

  const POLL_WINDOW: nat := 60

  function PyStr(n: int): string {
    if n < 0 then "-" + Decimal(-n) else Decimal(n)
  }

  function ExitError(exit: Exit): string {
    match exit
    case Text(s) => if s == "OK" || s == "0" then "" else s
    case Number(n) => if n == 0 then "" else PyStr(n)
    case NoExit => "None"
  }

  /** The first poll that decides, within the window. */
  function TaskOutcome(polls: nat -> Poll, i: nat): string
    decreases POLL_WINDOW - i
  {
    if i >= POLL_WINDOW then "task still running after poll window"
    else if polls(i).status != 200 then "task poll HTTP " + Decimal(polls(i).status)
    else if polls(i).stopped then ExitError(polls(i).exit)
    else TaskOutcome(polls, i + 1)
  }

  method WaitTask(polls: nat -> Poll) returns (error: string)
    ensures error == TaskOutcome(polls, 0)
  {
    for i := 0 to POLL_WINDOW
      invariant TaskOutcome(polls, 0) == TaskOutcome(polls, i)
    {
      var poll := polls(i);
      if poll.status != 200 {
        return "task poll HTTP " + Decimal(poll.status);
      }
      if poll.stopped {
        return ExitError(poll.exit);
      }
    }
    return "task still running after poll window";
  }

  function ApiError(reply: ApiReply): string {
    if reply.status != 200 then "HTTP " + Decimal(reply.status)
    else if reply.upid == "" then "no task UPID returned"
    else TaskOutcome(reply.polls, 0)
  }

  // ----- find_orphans -----

  function Prefix(datastore: string): string {
    datastore + ":"
  }

  /** Nobody on the node owns this entry. */
  predicate IsOrphan(existing: set<int>, datastore: string, e: Content) {
    StartsWith(e.volid, Prefix(datastore)) && OwnerId(e).Some? && OwnerId(e).value !in existing
  }

  function OrphansIn(existing: set<int>, node: string, datastore: string, entries: seq<Content>): seq<Key> {
    if entries == [] then []
    else
      var e := entries[|entries| - 1];
      var before := OrphansIn(existing, node, datastore, entries[..|entries| - 1]);
      if IsOrphan(existing, datastore, e) then before + [Key(node, datastore, AfterColon(e.volid))] else before
  }

  /** Nothing, for a datastore that cannot be listed. */
  function Listing(env: Env, store: Store, node: string, datastore: string): seq<Content> {
    if (node, datastore) in store && (node, datastore) !in env.unreadable then store[(node, datastore)] else []
  }

  function AllOrphans(env: Env, store: Store, node: string, datastores: seq<string>): seq<Key>
    requires node in env.vmids
  {
    if datastores == [] then []
    else
      var ds := datastores[|datastores| - 1];
      AllOrphans(env, store, node, datastores[..|datastores| - 1]) +
      OrphansIn(env.vmids[node], node, ds, Listing(env, store, node, ds))
  }

  function Orphans(env: Env, store: Store, node: string, datastores: seq<string>): seq<Key>
    requires node in env.vmids
  {
    Firsts(AllOrphans(env, store, node, datastores))
  }

  lemma FoundOneMore(a: seq<Key>, b: seq<Key>, x: Key)
    ensures Firsts(a + (b + [x])) == if x in Firsts(a + b) then Firsts(a + b) else Firsts(a + b) + [x]
  {
    assert (a + (b + [x]))[..|a + b|] == a + b;
  }

  lemma OrphansSnoc(existing: set<int>, node: string, ds: string, entries: seq<Content>, e: Content)
    ensures var before := OrphansIn(existing, node, ds, entries);
            OrphansIn(existing, node, ds, entries + [e]) ==
            if IsOrphan(existing, ds, e) then before + [Key(node, ds, AfterColon(e.volid))] else before
  {
    assert (entries + [e])[..|entries|] == entries;
  }

  /** One more entry of a datastore adds its key unless it is owned or found already. */
  lemma ScanStep(existing: set<int>, node: string, ds: string, content: seq<Content>, j: nat, all: seq<Key>)
    requires j < |content|
    ensures var found := Firsts(all + OrphansIn(existing, node, ds, content[..j]));
            var key := Key(node, ds, AfterColon(content[j].volid));
            Firsts(all + OrphansIn(existing, node, ds, content[..j + 1])) ==
            if IsOrphan(existing, ds, content[j]) && key !in found then found + [key] else found
  {
    OrphansSnoc(existing, node, ds, content[..j], content[j]);
    assert content[..j + 1] == content[..j] + [content[j]];
    FoundOneMore(all, OrphansIn(existing, node, ds, content[..j]), Key(node, ds, AfterColon(content[j].volid)));
  }

  // ----- Removal -----

  predicate Names(at: (string, string), e: Content, key: Key) {
    && key.node == at.0 && key.datastore == at.1
    && StartsWith(e.volid, Prefix(at.1)) && AfterColon(e.volid) == key.volume
  }

  predicate IsGone(at: (string, string), e: Content, gone: set<Key>) {
    StartsWith(e.volid, Prefix(at.1)) && Key(at.0, at.1, AfterColon(e.volid)) in gone
  }

  function Keep(at: (string, string), entries: seq<Content>, gone: set<Key>): seq<Content> {
    if entries == [] then []
    else
      var before := Keep(at, entries[..|entries| - 1], gone);
      if IsGone(at, entries[|entries| - 1], gone) then before else before + [entries[|entries| - 1]]
  }

  /** The storage without the volumes `gone` names. */
  function Without(store: Store, gone: set<Key>): Store {
    map at | at in store :: Keep(at, store[at], gone)
  }

  // ----- clean_orphans -----

  /** One removal attempt and the error it returned; the empty string is success. */
  datatype Attempt = Api(key: Key, error: string) | Ssh(key: Key, error: string)

  datatype World = World(store: Store, log: seq<Attempt>)

  datatype Line =
    | Found(count: nat, node: string)
    | WouldRemove(key: Key)
    | CouldNotRemove(key: Key, error: string)
    | Removed(key: Key)

  /** The world and the `api_errors` dict. */
  datatype Stage = Stage(world: World, errors: map<Key, string>)

  function AfterApi(env: Env, w: World, key: Key): World {
    var reply := env.api(|w.log|, key);
    World(if reply.gone then Without(w.store, {key}) else w.store,
          w.log + [Api(key, ApiError(reply))])
  }

  function AfterSsh(w: World, key: Key, reply: SshReply): World
    requires reply.Answer?
  {
    World(if reply.gone then Without(w.store, {key}) else w.store,
          w.log + [Ssh(key, reply.Error())])
  }

  function ApiStage(env: Env, w: World, keys: seq<Key>): Stage {
    if keys == [] then Stage(w, map[])
    else
      var before, key := ApiStage(env, w, keys[..|keys| - 1]), keys[|keys| - 1];
      var after := AfterApi(env, before.world, key);
      Stage(after, before.errors[key := after.log[|after.log| - 1].error])
  }

  function Failed(keys: seq<Key>, errors: map<Key, string>): seq<Key> {
    if keys == [] then []
    else
      var before, key := Failed(keys[..|keys| - 1], errors), keys[|keys| - 1];
      if key in errors && errors[key] != "" then before + [key] else before
  }

  /** A key's entry in `api_errors` after its SSH attempt. */
  function FallbackError(errors: map<Key, string>, key: Key, error: string): string {
    if error == "" then "" else "API: " + ErrorAt(errors, key) + "; host fallback: " + error
  }

  datatype SshResult = Done(stage: Stage) | Broke(stage: Stage) | Raised(stage: Stage)

  function ErrorAt(errors: map<Key, string>, key: Key): string {
    if key in errors then errors[key] else ""
  }

  function SshStage(env: Env, start: Stage, failed: seq<Key>): SshResult {
    if failed == [] then Done(start)
    else
      var before, key := SshStage(env, start, failed[..|failed| - 1]), failed[|failed| - 1];
      if !before.Done? then before
      else
        var s := before.stage;
        var reply := env.ssh(|s.world.log|, key);
        if reply.NoPexpect? then Broke(s)
        else if reply.NoPassword? then Raised(s)
        else Done(Stage(AfterSsh(s.world, key, reply),
                        s.errors[key := FallbackError(s.errors, key, reply.Error())]))
  }

  function Report(keys: seq<Key>, apply: bool, errors: map<Key, string>): (lines: seq<Line>)
    ensures |lines| == |keys|
    ensures forall i | 0 <= i < |keys| ::
              lines[i] == if !apply then WouldRemove(keys[i])
                          else if ErrorAt(errors, keys[i]) != "" then CouldNotRemove(keys[i], ErrorAt(errors, keys[i]))
                          else Removed(keys[i])
  {
    seq(|keys|, i requires 0 <= i < |keys| =>
      if !apply then WouldRemove(keys[i])
      else if ErrorAt(errors, keys[i]) != "" then CouldNotRemove(keys[i], ErrorAt(errors, keys[i]))
      else Removed(keys[i]))
  }

  /** The report, or none when an uncaught error ended the run. */
  datatype Outcome = Outcome(world: World, lines: Option<seq<Line>>)

  /** Both stages on the orphans of one node. */
  function Removal(env: Env, w: World, orphans: seq<Key>): SshResult {
    var api := ApiStage(env, w, orphans);
    var failed := Failed(orphans, api.errors);
    if failed != [] && env.fallback then SshStage(env, api, failed) else Done(api)
  }

  function CleanNode(env: Env, apply: bool, datastores: seq<string>, w: World, node: string): Outcome {
    if node !in env.vmids then Outcome(w, None)
    else
      var orphans := Orphans(env, w.store, node, datastores);
      var found := [Found(|orphans|, node)];
      if !apply then Outcome(w, Some(found + Report(orphans, false, map[])))
      else
        var r := Removal(env, w, orphans);
        Outcome(r.stage.world, if r.Raised? then None else Some(found + Report(orphans, true, r.stage.errors)))
  }

  function Clean(env: Env, apply: bool, datastores: seq<string>, w: World, nodes: seq<string>): Outcome {
    if nodes == [] then Outcome(w, Some([]))
    else
      var before := Clean(env, apply, datastores, w, nodes[..|nodes| - 1]);
      if before.lines.None? then before
      else
        var o := CleanNode(env, apply, datastores, before.world, nodes[|nodes| - 1]);
        Outcome(o.world, if o.lines.None? then None else Some(before.lines.value + o.lines.value))
  }

  // ----- The same, as it runs -----

  class Cluster {
    const env: Env
    var store: Store
    var log: seq<Attempt>

    constructor (env: Env, store: Store)
      ensures this.env == env && Now() == World(store, [])
    {
      this.env := env;
      this.store := store;
      log := [];
    }

    function Now(): World
      reads this
    {
      World(store, log)
    }

    method DeleteContent(key: Key) returns (error: string)
      modifies this
      ensures Now() == AfterApi(env, old(Now()), key)
      ensures error == log[|log| - 1].error
    {
      var reply := env.api(|log|, key);
      if reply.status != 200 {
        error := "HTTP " + Decimal(reply.status);
      } else if reply.upid == "" {
        error := "no task UPID returned";
      } else {
        error := WaitTask(reply.polls);
      }
      if reply.gone {
        store := Without(store, {key});
      }
      log := log + [Api(key, error)];
    }

    /** `pvesm free` over SSH; nothing is attempted without pexpect or a password. */
    method RemoveViaSsh(key: Key) returns (reply: SshReply, error: string)
      modifies this
      ensures reply == env.ssh(|old(log)|, key) && (reply.Answer? ==> error == reply.Error())
      ensures Now() == if reply.Answer? then AfterSsh(old(Now()), key, reply) else old(Now())
    {
      reply, error := env.ssh(|log|, key), "";
      if reply.Answer? {
        error := ReadSession(reply.session);
        if reply.gone {
          store := Without(store, {key});
        }
        log := log + [Ssh(key, error)];
      }
    }

    /** One datastore's entries added to what was found before, each key once. */
    method Scan(existing: set<int>, node: string, ds: string, content: seq<Content>,
                found: seq<Key>, seen: set<Key>, ghost all: seq<Key>)
        returns (found': seq<Key>, seen': set<Key>)
      requires found == Firsts(all) && forall k :: k in seen <==> k in found
      ensures found' == Firsts(all + OrphansIn(existing, node, ds, content))
      ensures forall k :: k in seen' <==> k in found'
    {
      found', seen' := found, seen;
      assert all + OrphansIn(existing, node, ds, content[..0]) == all;
      for j := 0 to |content|
        invariant found' == Firsts(all + OrphansIn(existing, node, ds, content[..j]))
        invariant forall k :: k in seen' <==> k in found'
      {
        ScanStep(existing, node, ds, content, j, all);
        var e := content[j];
        if IsOrphan(existing, ds, e) {
          var key := Key(node, ds, AfterColon(e.volid));
          if key !in seen' {
            seen' := seen' + {key};
            found' := found' + [key];
          }
        }
      }
      assert content[..|content|] == content;
    }

    /** `None` is the uncaught error of an unreadable VM list. */
    method FindOrphans(node: string, datastores: seq<string>) returns (orphans: Option<seq<Key>>)
      ensures orphans == if node in env.vmids then Some(Orphans(env, store, node, datastores)) else None
    {
      if node !in env.vmids {
        return None;
      }
      var found: seq<Key> := [];
      var seen: set<Key> := {};
      for i := 0 to |datastores|
        invariant found == Orphans(env, store, node, datastores[..i])
        invariant forall k :: k in seen <==> k in found
      {
        assert datastores[..i + 1][..i] == datastores[..i];
        found, seen := Scan(env.vmids[node], node, datastores[i], Listing(env, store, node, datastores[i]),
                            found, seen, AllOrphans(env, store, node, datastores[..i]));
      }
      assert datastores[..|datastores|] == datastores;
      return Some(found);
    }

    /** Stage one: every orphan through the API. */
    method DeleteAll(orphans: seq<Key>) returns (errors: map<Key, string>)
      modifies this
      ensures Stage(Now(), errors) == ApiStage(env, old(Now()), orphans)
    {
      errors := map[];
      for i := 0 to |orphans|
        invariant Stage(Now(), errors) == ApiStage(env, old(Now()), orphans[..i])
      {
        assert orphans[..i + 1][..i] == orphans[..i];
        var error := DeleteContent(orphans[i]);
        errors := errors[orphans[i] := error];
      }
      assert orphans[..|orphans|] == orphans;
    }

    /** Stage two: the failures over SSH, giving up at the first sign that pexpect is missing. */
    method Fallback(failed: seq<Key>, start: map<Key, string>) returns (errors: map<Key, string>, raised: bool)
      modifies this
      ensures var r := SshStage(env, Stage(old(Now()), start), failed);
              Stage(Now(), errors) == r.stage && raised == r.Raised?
    {
      errors, raised := start, false;
      ghost var first := Stage(Now(), start);
      for i := 0 to |failed|
        invariant SshStage(env, first, failed[..i]) == Done(Stage(Now(), errors))
      {
        var key := failed[i];
        assert failed[..i + 1][..i] == failed[..i];
        var reply, error := RemoveViaSsh(key);
        match reply {
          case NoPexpect =>
            StopStays(env, first, failed, i + 1);
            return errors, false;
          case NoPassword =>
            StopStays(env, first, failed, i + 1);
            return errors, true;
          case Answer(_, _) =>
            errors := errors[key := FallbackError(errors, key, error)];
        }
      }
      assert failed[..|failed|] == failed;
    }

    /** `clean_orphans`; `None` when an uncaught error ends it part-way. */
    method CleanOrphans(nodes: seq<string>, datastores: seq<string>, apply: bool) returns (lines: Option<seq<Line>>)
      modifies this
      ensures Outcome(Now(), lines) == Clean(env, apply, datastores, old(Now()), nodes)
    {
      var acc: seq<Line> := [];
      ghost var start := Now();
      for i := 0 to |nodes|
        invariant Clean(env, apply, datastores, start, nodes[..i]) == Outcome(Now(), Some(acc))
      {
        CleanStep(env, apply, datastores, start, nodes, i);
        var report := CleanOneNode(nodes[i], datastores, apply);
        if report.None? {
          return None;
        }
        acc := acc + report.value;
      }
      assert nodes[..|nodes|] == nodes;
      return Some(acc);
    }

    method CleanOneNode(node: string, datastores: seq<string>, apply: bool) returns (lines: Option<seq<Line>>)
      modifies this
      ensures Outcome(Now(), lines) == CleanNode(env, apply, datastores, old(Now()), node)
    {
      var found := FindOrphans(node, datastores);
      if found.None? {
        return None;
      }
      var orphans := found.value;
      if orphans == [] {
        assert [Found(0, node)] + Report([], apply, map[]) == [Found(0, node)];
        return Some([Found(0, node)]);
      }
      var errors: map<Key, string> := map[];
      if apply {
        errors := DeleteAll(orphans);
        var failed := Failed(orphans, errors);
        if failed != [] && env.fallback {
          var raised;
          errors, raised := Fallback(failed, errors);
          if raised {
            return None;
          }
        }
      }
      return Some([Found(|orphans|, node)] + Report(orphans, apply, errors));
    }
  }

  lemma {:induction false} StopStays(env: Env, start: Stage, failed: seq<Key>, i: nat)
    requires i <= |failed| && !SshStage(env, start, failed[..i]).Done?
    ensures SshStage(env, start, failed) == SshStage(env, start, failed[..i])
  {
    if i == |failed| {
      assert failed[..i] == failed;
    } else {
      assert failed[..|failed| - 1][..i] == failed[..i];
      StopStays(env, start, failed[..|failed| - 1], i);
    }
  }

  lemma CleanSnoc(env: Env, apply: bool, datastores: seq<string>, w: World, nodes: seq<string>, node: string)
    requires Clean(env, apply, datastores, w, nodes).lines.Some?
    ensures var before := Clean(env, apply, datastores, w, nodes);
            var o := CleanNode(env, apply, datastores, before.world, node);
            Clean(env, apply, datastores, w, nodes + [node]) ==
            Outcome(o.world, if o.lines.None? then None else Some(before.lines.value + o.lines.value))
  {
    assert (nodes + [node])[..|nodes|] == nodes;
  }

  /** One more node, and what an error on it does to the rest of the run. */
  lemma CleanStep(env: Env, apply: bool, datastores: seq<string>, w: World, nodes: seq<string>, i: nat)
    requires i < |nodes| && Clean(env, apply, datastores, w, nodes[..i]).lines.Some?
    ensures var before := Clean(env, apply, datastores, w, nodes[..i]);
            var o := CleanNode(env, apply, datastores, before.world, nodes[i]);
            if o.lines.None? then Clean(env, apply, datastores, w, nodes) == Outcome(o.world, None)
            else Clean(env, apply, datastores, w, nodes[..i + 1]) ==
                 Outcome(o.world, Some(before.lines.value + o.lines.value))
  {
    CleanSnoc(env, apply, datastores, w, nodes[..i], nodes[i]);
    assert nodes[..i + 1] == nodes[..i] + [nodes[i]];
    if Clean(env, apply, datastores, w, nodes[..i + 1]).lines.None? {
      RaisedStays(env, apply, datastores, w, nodes, i + 1);
    }
  }

  lemma {:induction false} RaisedStays(env: Env, apply: bool, datastores: seq<string>, w: World, nodes: seq<string>,
                                       i: nat)
    requires i <= |nodes| && Clean(env, apply, datastores, w, nodes[..i]).lines.None?
    ensures Clean(env, apply, datastores, w, nodes) == Clean(env, apply, datastores, w, nodes[..i])
  {
    if i == |nodes| {
      assert nodes[..i] == nodes;
    } else {
      assert nodes[..|nodes| - 1][..i] == nodes[..i];
      RaisedStays(env, apply, datastores, w, nodes[..|nodes| - 1], i);
    }
  }
}
