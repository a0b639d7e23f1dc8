/** A hypervisor's overlay files and forwarding table over time: installs, complete or cut short, interface
    events, reboots and SDN commits. */
module OverlayHost {
  import opened Wrappers
  import opened Ordering
  import opened FdbText
  import opened Overlay

  /** The vxlan device, the hook script rendered for it, and the destinations that `bridge fdb append` takes:
      the hook ignores its refusal of any other, such as an address that does not have six octets. */
  datatype Device = Device(name: string, script: string, accepts: Entry -> bool)

  /** The data file and the hook, each beside the `.new` file it is replaced from, and the kernel's table. */
  datatype HostState = HostState(dataNew: Option<string>, data: Option<string>,
                                 hookNew: Option<string>, hook: Option<string>, table: set<Entry>)

  /** What can happen to a host. A write is what reached the `.new` file, a move replaces the file in place. A
      hook run with a limit was ended after that many destinations. `Wipe` is a reboot or an SDN commit. */
  datatype Event =
    | WriteData(text: string)
    | MoveData
    | WriteHook(text: string)
    | MoveHook
    | IfUp(iface: string, limit: Option<nat>)
    | Wipe

  predicate Concerns(dev: Device, iface: string) {
    iface == dev.name || iface == "vlab"
  }

  function Upto(es: seq<Entry>, limit: Option<nat>): (r: seq<Entry>)
    ensures |r| <= |es| && r == es[..|r|]
    ensures limit.None? ==> r == es
  {
    if limit.None? || limit.value >= |es| then es else es[..limit.value]
  }

  /** What appending these destinations adds to the table. */
  function Taken(dev: Device, es: seq<Entry>): set<Entry> {
    set e | e in es && dev.accepts(e)
  }

  /** A hook that is not the whole script does nothing here; `WholeFiles` shows that there never is one. */
  function Step(dev: Device, st: HostState, ev: Event): HostState {
    match ev
    case WriteData(text) => st.(dataNew := Some(text))
    case MoveData => if st.dataNew.Some? then st.(data := st.dataNew, dataNew := None) else st
    case WriteHook(text) => st.(hookNew := Some(text))
    case MoveHook => if st.hookNew.Some? then st.(hook := st.hookNew, hookNew := None) else st
    case IfUp(iface, limit) =>
      if st.hook == Some(dev.script) && Concerns(dev, iface) && st.data.Some?
      then st.(table := st.table + Taken(dev, Upto(Entries(st.data.value), limit)))
      else st
    case Wipe => st.(table := {})
  }

  function Run(dev: Device, st: HostState, evs: seq<Event>): HostState {
    if evs == [] then st else Step(dev, Run(dev, st, evs[..|evs| - 1]), evs[|evs| - 1])
  }

  /** The install script: data file, hook, then one run of the hook. */
  function Installation(dev: Device, body: string): seq<Event> {
    [WriteData(body), MoveData, WriteHook(dev.script), MoveHook, IfUp(dev.name, None)]
  }

  /** What a step leaves that was ended half-way; a move happens or does not. */
  function Torn(ev: Event, n: nat): seq<Event> {
    match ev
    case WriteData(text) => [WriteData(if n < |text| then text[..n] else text)]
    case WriteHook(text) => [WriteHook(if n < |text| then text[..n] else text)]
    case IfUp(iface, _) => [IfUp(iface, Some(n))]
    case _ => []
  }

  /** How far an install gets: nowhere, or up to its step number `cut`, if it has so many, and there up to `n`
      characters or destinations. */
  datatype Session = Unreached | Reached(cut: nat, n: nat)

  function SessionEvents(dev: Device, body: string, session: Session): seq<Event> {
    if session.Unreached? then [] else CutInstall(dev, body, session.cut, session.n)
  }

  /** An install ended in its step number `cut`, if it has so many. */
  function CutInstall(dev: Device, body: string, cut: nat, n: nat): seq<Event> {
    var evs := Installation(dev, body);
    if cut < |evs| then evs[..cut] + Torn(evs[cut], n) else evs
  }

  lemma RunSnoc(dev: Device, st: HostState, evs: seq<Event>, ev: Event)
    ensures Run(dev, st, evs + [ev]) == Step(dev, Run(dev, st, evs), ev)
  {
    assert (evs + [ev])[..|evs|] == evs;
  }

  lemma NoEvents(dev: Device, st: HostState)
    ensures Run(dev, st, []) == st
  {
  }

  lemma RunPrefix(dev: Device, st: HostState, evs: seq<Event>, k: nat)
    requires k < |evs|
    ensures Run(dev, st, evs[..k + 1]) == Step(dev, Run(dev, st, evs[..k]), evs[k])
  {
    assert evs[..k + 1] == evs[..k] + [evs[k]];
    RunSnoc(dev, st, evs[..k], evs[k]);
  }

  /** The host after so many steps of an install. */
  ghost function Installed(dev: Device, st: HostState, body: string, steps: nat): HostState {
    match steps
    case 0 => st
    case 1 => st.(dataNew := Some(body))
    case 2 => st.(dataNew := None, data := Some(body))
    case 3 => st.(dataNew := None, data := Some(body), hookNew := Some(dev.script))
    case 4 => HostState(None, Some(body), None, Some(dev.script), st.table)
    case _ => HostState(None, Some(body), None, Some(dev.script), st.table + Taken(dev, Entries(body)))
  }

  lemma InstallSteps(dev: Device, st: HostState, body: string)
    ensures forall k | 0 <= k <= 5 :: Run(dev, st, Installation(dev, body)[..k]) == Installed(dev, st, body, k)
    ensures Run(dev, st, Installation(dev, body)) == Installed(dev, st, body, 5)
  {
    var evs := Installation(dev, body);
    assert evs[..0] == [] && evs[..5] == evs;
    RunPrefix(dev, st, evs, 0);
    RunPrefix(dev, st, evs, 1);
    RunPrefix(dev, st, evs, 2);
    RunPrefix(dev, st, evs, 3);
    RunPrefix(dev, st, evs, 4);
  }

  lemma CutSteps(dev: Device, st: HostState, body: string, cut: nat, n: nat)
    ensures var after := Run(dev, st, CutInstall(dev, body, cut, n));
            if cut >= 5 then after == Installed(dev, st, body, 5)
            else
              var before, torn := Installed(dev, st, body, cut), Torn(Installation(dev, body)[cut], n);
              after == if torn == [] then before else Step(dev, before, torn[0])
  {
    InstallSteps(dev, st, body);
    var evs := Installation(dev, body);
    if cut < 5 {
      var torn := Torn(evs[cut], n);
      if torn == [] {
        assert evs[..cut] + torn == evs[..cut];
      } else {
        assert torn == [torn[0]];
        RunSnoc(dev, st, evs[..cut], torn[0]);
      }
    }
  }

  class Host {
    const dev: Device
    var dataNew: Option<string>
    var data: Option<string>
    var hookNew: Option<string>
    var hook: Option<string>
    var table: set<Entry>

    constructor (dev: Device)
      ensures this.dev == dev && State() == HostState(None, None, None, None, {})
    {
      this.dev := dev;
      dataNew, data, hookNew, hook, table := None, None, None, None, {};
    }

    ghost function State(): HostState
      reads this
    {
      HostState(dataNew, data, hookNew, hook, table)
    }

    /** The if-up hook; a destination already present, or refused, changes nothing. */
    method RunHook(iface: string, limit: Option<nat>)
      modifies this`table
      ensures table == if Concerns(dev, iface) && data.Some?
                       then old(table) + Taken(dev, Upto(Entries(data.value), limit))
                       else old(table)
    {
      if iface != dev.name && iface != "vlab" {
        return;
      }
      if data.None? {
        return;
      }
      var all := ReadEntries(data.value);
      var es := Upto(all, limit);
      for i := 0 to |es|
        invariant table == old(table) + Taken(dev, es[..i])
      {
        TakenSnoc(dev, es[..i], es[i]);
        assert es[..i + 1] == es[..i] + [es[i]];
        if dev.accepts(es[i]) {
          table := table + {es[i]};
        }
      }
      assert es[..|es|] == es;
    }

    /** An interface came up: the system runs the hook if it is there. */
    method InterfaceUp(iface: string, limit: Option<nat>)
      modifies this`table
      ensures State() == Step(dev, old(State()), IfUp(iface, limit))
    {
      if hook == Some(dev.script) {
        RunHook(iface, limit);
      }
    }

    /** `_install_node`'s script, as far as it gets. */
    method Install(lines: seq<string>, session: Session)
      modifies this
      ensures State() == Run(dev, old(State()), SessionEvents(dev, Body(lines), session))
    {
      if session.Unreached? {
        return;
      }
      hide Entries, Run;
      var body, cut, n := Body(lines), session.cut, session.n;
      CutSteps(dev, State(), body, cut, n);
      dataNew := Some(if cut == 0 && n < |body| then body[..n] else body);
      if cut <= 1 {
        return;
      }
      data, dataNew := dataNew, None;
      hookNew := Some(if cut == 2 && n < |dev.script| then dev.script[..n] else dev.script);
      if cut <= 3 {
        return;
      }
      hook, hookNew := hookNew, None;
      InterfaceUp(dev.name, if cut == 4 then Some(n) else None);
    }

    method Reboot()
      modifies this`table
      ensures table == {}
    {
      table := {};
    }
  }

  lemma TakenSnoc(dev: Device, es: seq<Entry>, e: Entry)
    ensures Taken(dev, es + [e]) == if dev.accepts(e) then Taken(dev, es) + {e} else Taken(dev, es)
  {
  }

  // ----- ensure_sdn_fdb -----

  ghost function NodeEntries(estate: Estate, settings: Settings, node: string): Option<seq<Entry>> {
    FdbEntries(settings, DiscoveredAll(estate, settings, settings.nodeNames), node, settings.nodeNames)
  }

  /** One node after its turn of the loop. */
  ghost function NodeAfter(dev: Device, st: HostState, estate: Estate, settings: Settings, node: string,
                           session: Session): HostState
    requires NodeEntries(estate, settings, node).Some?
  {
    Run(dev, st, SessionEvents(dev, Body(RenderAll(NodeEntries(estate, settings, node).value)), session))
  }

  method EnsureNode(host: Host, node: string, settings: Settings, macs: map<string, seq<string>>, session: Session,
                    ghost estate: Estate) returns (ok: bool)
    requires macs == DiscoveredAll(estate, settings, settings.nodeNames)
    modifies host
    ensures ok == NodeEntries(estate, settings, node).Some?
    ensures host.State() == if ok then NodeAfter(host.dev, old(host.State()), estate, settings, node, session)
                            else old(host.State())
  {
    var lines := FdbLinesFor(node, settings, macs);
    ok := lines.Some?;
    if ok {
      host.Install(lines.value, session);
    }
  }

  ghost function States(hosts: seq<Host>): (r: seq<HostState>)
    reads hosts
    ensures |r| == |hosts| && forall i | 0 <= i < |hosts| :: r[i] == hosts[i].State()
  {
    seq(|hosts|, i requires 0 <= i < |hosts| reads hosts => hosts[i].State())
  }

  /** Every node after its turn; one that has no lines has none. */
  ghost function NodesAfter(hosts: seq<Host>, start: seq<HostState>, estate: Estate, settings: Settings,
                            sessions: seq<Session>): (r: seq<HostState>)
    requires |hosts| == |start| == |sessions| == |settings.nodeNames|
    ensures |r| == |hosts|
    ensures forall i | 0 <= i < |r| && NodeEntries(estate, settings, settings.nodeNames[i]).Some? ::
              r[i] == NodeAfter(hosts[i].dev, start[i], estate, settings, settings.nodeNames[i], sessions[i])
  {
    seq(|hosts|, i requires 0 <= i < |hosts| =>
      if NodeEntries(estate, settings, settings.nodeNames[i]).Some?
      then NodeAfter(hosts[i].dev, start[i], estate, settings, settings.nodeNames[i], sessions[i])
      else start[i])
  }

  /** Discovery once, then an install per node in turn; the uncaught error of a node without lines ends the loop,
      and the nodes from there on stay as they are. */
  method EnsureSdnFdb(hosts: seq<Host>, estate: Estate, settings: Settings, sessions: seq<Session>)
      returns (done: nat)
    requires |hosts| == |sessions| == |settings.nodeNames| && NoRepeats(hosts)
    modifies hosts
    ensures done <= |hosts|
    ensures forall i | 0 <= i < done :: NodeEntries(estate, settings, settings.nodeNames[i]).Some?
    ensures done < |hosts| ==> NodeEntries(estate, settings, settings.nodeNames[done]).None?
    ensures var start := old(States(hosts));
            States(hosts) == NodesAfter(hosts, start, estate, settings, sessions)[..done] + start[done..]
  {
    var macs := DiscoverSdnMacs(estate, settings);
    var names := settings.nodeNames;
    hide NodeAfter, NodeEntries;
    ghost var start := States(hosts);
    ghost var want := NodesAfter(hosts, start, estate, settings, sessions);
    done := 0;
    while done < |hosts|
      invariant done <= |hosts|
      invariant forall j | 0 <= j < done :: NodeEntries(estate, settings, names[j]).Some?
      invariant forall j | 0 <= j < done :: hosts[j].State() == want[j]
      invariant forall j | done <= j < |hosts| :: hosts[j].State() == start[j]
    {
      assert forall j | 0 <= j < |hosts| && j != done :: hosts[j] != hosts[done];
      var here := EnsureNode(hosts[done], names[done], settings, macs, sessions[done], estate);
      if !here {
        break;
      }
      done := done + 1;
    }
  }

  // ----- Cut installs -----

  datatype Act = Ensure(body: string, session: Session) | Up(iface: string, limit: Option<nat>) | Reset

  function ActEvents(dev: Device, act: Act): seq<Event> {
    match act
    case Ensure(body, session) => SessionEvents(dev, body, session)
    case Up(iface, limit) => [IfUp(iface, limit)]
    case Reset => [Wipe]
  }

  ghost function RunActs(dev: Device, st: HostState, acts: seq<Act>): HostState {
    if acts == [] then st
    else Run(dev, RunActs(dev, st, acts[..|acts| - 1]), ActEvents(dev, acts[|acts| - 1]))
  }

  /** No hook, or the whole script. */
  ghost predicate HookWhole(dev: Device, st: HostState) {
    st.hook.None? || st.hook == Some(dev.script)
  }

  /** An install that is ended anywhere has replaced a file by the whole new one or left it. */
  lemma SessionFiles(dev: Device, st: HostState, body: string, session: Session)
    ensures var half := Run(dev, st, SessionEvents(dev, body, session));
            && half.data == (if session.Reached? && session.cut >= 2 then Some(body) else st.data)
            && half.hook == (if session.Reached? && session.cut >= 4 then Some(dev.script) else st.hook)
            && st.table <= half.table <= st.table + Taken(dev, Entries(body))
  {
    hide Entries, Run;
    if session.Unreached? {
      NoEvents(dev, st);
    } else {
      CutSteps(dev, st, body, session.cut, session.n);
      TakenUpto(dev, Entries(body), Some(session.n));
    }
  }

  lemma ActWhole(dev: Device, st: HostState, act: Act)
    requires HookWhole(dev, st)
    ensures var after := Run(dev, st, ActEvents(dev, act));
            && HookWhole(dev, after)
            && (after.data == st.data || (act.Ensure? && after.data == Some(act.body)))
  {
    match act
    case Ensure(body, session) => SessionFiles(dev, st, body, session);
    case Up(iface, limit) => RunSnoc(dev, st, [], IfUp(iface, limit));
    case Reset => RunSnoc(dev, st, [], Wipe);
  }

  /** Over any installs, ended anywhere and started again, any interface events and wipes: the hook in place is
      always the whole script, and the data file the first one or the whole body of some install. */
  lemma {:induction false} WholeFiles(dev: Device, st: HostState, acts: seq<Act>)
    requires HookWhole(dev, st)
    ensures var after := RunActs(dev, st, acts);
            && HookWhole(dev, after)
            && (after.data == st.data ||
                exists i :: 0 <= i < |acts| && acts[i].Ensure? && after.data == Some(acts[i].body))
  {
    if acts != [] {
      var init, last := acts[..|acts| - 1], |acts| - 1;
      WholeFiles(dev, st, init);
      ActWhole(dev, RunActs(dev, st, init), acts[last]);
      if i :| 0 <= i < |init| && init[i].Ensure? && RunActs(dev, st, init).data == Some(init[i].body) {
        assert acts[i] == init[i];
      }
    }
  }

  /** An install that is ended anywhere keeps what was in the table, and repeating it gives the host an
      uninterrupted one gives. */
  lemma InterruptedInstall(dev: Device, st: HostState, body: string, session: Session)
    ensures var half := Run(dev, st, SessionEvents(dev, body, session));
            && st.table <= half.table
            && Run(dev, half, Installation(dev, body)) == Run(dev, st, Installation(dev, body))
  {
    hide Entries, Run;
    SessionFiles(dev, st, body, session);
    InstallSteps(dev, st, body);
    InstallSteps(dev, Run(dev, st, SessionEvents(dev, body, session)), body);
  }

  // ----- Self-healing -----

  /** Writing a `.new` file is no install yet. */
  ghost predicate NoInstall(evs: seq<Event>) {
    forall ev | ev in evs :: !ev.MoveData? && !ev.MoveHook?
  }

  /** The data file and the hook stay until the next install. */
  lemma {:induction false} FilesStay(dev: Device, st: HostState, evs: seq<Event>)
    requires NoInstall(evs)
    ensures Run(dev, st, evs).data == st.data && Run(dev, st, evs).hook == st.hook
  {
    if evs != [] {
      assert evs[|evs| - 1] in evs;
      FilesStay(dev, st, evs[..|evs| - 1]);
    }
  }

  /** After the first `i` events the data file held `e`, and no wipe has happened since. */
  ghost predicate HeldAt(dev: Device, st: HostState, evs: seq<Event>, i: nat, e: Entry) {
    && i <= |evs| && Wipe !in evs[i..]
    && Run(dev, st, evs[..i]).data.Some? && e in Entries(Run(dev, st, evs[..i]).data.value)
  }

  lemma HeldLonger(dev: Device, st: HostState, evs: seq<Event>, i: nat, e: Entry)
    requires evs != [] && HeldAt(dev, st, evs[..|evs| - 1], i, e) && evs[|evs| - 1] != Wipe
    ensures HeldAt(dev, st, evs, i, e)
  {
    var last := |evs| - 1;
    assert evs[..last][..i] == evs[..i] && evs[i..] == evs[..last][i..] + [evs[last]];
  }

  /** What is in the table was there at the start and never wiped, or was put there from a data file that was
      in place at some moment since the last wipe. */
  lemma {:induction false} Provenance(dev: Device, st: HostState, evs: seq<Event>, e: Entry)
    requires e in Run(dev, st, evs).table
    ensures (e in st.table && Wipe !in evs) || exists i :: HeldAt(dev, st, evs, i, e)
  {
    if evs != [] {
      var last := |evs| - 1;
      assert evs == evs[..last] + [evs[last]];
      if e in Run(dev, st, evs[..last]).table {
        Provenance(dev, st, evs[..last], e);
        if i :| HeldAt(dev, st, evs[..last], i, e) {
          HeldLonger(dev, st, evs, i, e);
        }
      } else {
        assert evs[last..] == [evs[last]];
        assert HeldAt(dev, st, evs, last, e);
      }
    }
  }

  /** While the data file stays, the table holds only old entries and the file's; after a wipe, only the file's. */
  lemma {:induction false} OnlyFromFile(dev: Device, st: HostState, evs: seq<Event>)
    requires NoInstall(evs) && st.data.Some?
    ensures Run(dev, st, evs).table <= st.table + Taken(dev, Entries(st.data.value))
    ensures Wipe in evs ==> Run(dev, st, evs).table <= Taken(dev, Entries(st.data.value))
  {
    if evs != [] {
      var init, ev := evs[..|evs| - 1], evs[|evs| - 1];
      assert ev in evs && evs == init + [ev];
      OnlyFromFile(dev, st, init);
      FilesStay(dev, st, init);
      if ev.IfUp? {
        TakenUpto(dev, Entries(st.data.value), ev.limit);
      }
    }
  }

  lemma TakenUpto(dev: Device, es: seq<Entry>, limit: Option<nat>)
    ensures Taken(dev, Upto(es, limit)) <= Taken(dev, es)
  {
  }

  /** Once installed, whatever happens next, the vxlan device or `vlab` coming up leaves every destination of
      the data file that the bridge tool takes in the table; if the table was wiped since, exactly those. */
  lemma SelfHealing(dev: Device, st: HostState, evs: seq<Event>, iface: string)
    requires st.data.Some? && st.hook == Some(dev.script) && NoInstall(evs)
    requires iface == dev.name || iface == "vlab"
    ensures var wanted, healed := Taken(dev, Entries(st.data.value)), Run(dev, st, evs + [IfUp(iface, None)]);
            && wanted <= healed.table
            && (Wipe in evs ==> healed.table == wanted)
  {
    FilesStay(dev, st, evs);
    OnlyFromFile(dev, st, evs);
    RunSnoc(dev, st, evs, IfUp(iface, None));
  }

  /** Running the hook again adds nothing, to its end or not; another interface changes nothing. */
  lemma HookIdempotent(dev: Device, st: HostState, evs: seq<Event>, iface: string)
    requires forall ev | ev in evs :: ev.IfUp?
    ensures var once := Step(dev, st, IfUp(iface, None));
            if iface == dev.name || iface == "vlab" then Run(dev, once, evs) == once else once == st
  {
    if iface == dev.name || iface == "vlab" {
      Settled(dev, Step(dev, st, IfUp(iface, None)), evs);
    }
  }

  lemma {:induction false} Settled(dev: Device, st: HostState, evs: seq<Event>)
    requires forall ev | ev in evs :: ev.IfUp?
    requires st.hook == Some(dev.script) && st.data.Some? ==> Taken(dev, Entries(st.data.value)) <= st.table
    ensures Run(dev, st, evs) == st
  {
    if evs != [] {
      var ev := evs[|evs| - 1];
      assert ev in evs;
      Settled(dev, st, evs[..|evs| - 1]);
      if st.data.Some? {
        TakenUpto(dev, Entries(st.data.value), ev.limit);
      }
    }
  }

  // ----- Delivery -----

  /** Distinct nodes, each with its own peer address that is a plain token. */
  ghost predicate GoodSettings(settings: Settings) {
    && NoRepeats(settings.nodeNames) && |settings.nodeNames| <= |settings.peers|
    && NoRepeats(settings.peers) && (forall p | p in settings.peers :: IsToken(p))
  }

  /** No two VMs carry one MAC, and none carries the broadcast address. */
  ghost predicate UniqueMacs(estate: Estate, settings: Settings) {
    && (forall n, m, v, w, mac | Carries(estate, settings, n, v, mac) && Carries(estate, settings, m, w, mac) ::
          n == m && v == w)
    && (forall n, v :: !Carries(estate, settings, n, v, "ff:ff:ff:ff:ff:ff"))
  }

  /** The bridge tool takes every six-octet address. */
  ghost predicate GoodDevice(dev: Device) {
    forall e: Entry | IsMac(e.mac) :: dev.accepts(e)
  }

  lemma CarriedMac(estate: Estate, settings: Settings, n: string, v: int, mac: string)
    requires Carries(estate, settings, n, v, mac)
    ensures IsToken(mac) && mac[0] != '#' && IsMac(mac)
  {
    FoundMac(estate.nics[(n, v, settings.nicIndex[v])]);
  }

  lemma WellKnownMacs()
    ensures MULTICAST_MAC == "33:33:00:00:01" && BROADCAST_MAC == "ff:ff:ff:ff:ff:ff"
    ensures IsToken(MULTICAST_MAC) && MULTICAST_MAC[0] != '#' && !IsMac(MULTICAST_MAC)
    ensures IsToken(BROADCAST_MAC) && BROADCAST_MAC[0] != '#' && IsMac(BROADCAST_MAC)
  {
  }

  /** A destination in the data file is well formed, so it survives the trip through the file. */
  lemma ReachesGood(estate: Estate, settings: Settings, node: string, r: string, e: Entry)
    requires GoodSettings(settings) && r in settings.nodeNames
    requires Reaches(settings, DiscoveredAll(estate, settings, settings.nodeNames), node, r, e)
    ensures IsEntry(e)
  {
    PeersByIndex(settings);
    var i :| 0 <= i < |settings.nodeNames| && settings.nodeNames[i] == r;
    assert settings.peers[i] in settings.peers;
    WellKnownMacs();
    if e.mac in Discovered(estate, settings, r) {
      DiscoveredMember(estate, settings, r, e.mac);
      var v :| Carries(estate, settings, r, v, e.mac);
      CarriedMac(estate, settings, r, v, e.mac);
    }
  }

  /** What the node is meant to know: another node's peer address, for the well-known MACs and those its VMs carry. */
  ghost predicate IsWanted(estate: Estate, settings: Settings, node: string, e: Entry)
    requires |settings.nodeNames| <= |settings.peers|
  {
    exists j :: 0 <= j < |settings.nodeNames| && settings.nodeNames[j] != node && settings.peers[j] == e.peer &&
                (e.mac == "33:33:00:00:01" || e.mac == "ff:ff:ff:ff:ff:ff" ||
                 exists v :: Carries(estate, settings, settings.nodeNames[j], v, e.mac))
  }

  lemma ReachesIffWanted(estate: Estate, settings: Settings, node: string, e: Entry)
    requires GoodSettings(settings)
    ensures var macs := DiscoveredAll(estate, settings, settings.nodeNames);
            IsWanted(estate, settings, node, e) <==>
            exists i :: 0 <= i < |settings.nodeNames| && Reaches(settings, macs, node, settings.nodeNames[i], e)
  {
    var macs := DiscoveredAll(estate, settings, settings.nodeNames);
    WellKnownMacs();
    PeersByIndex(settings);
    forall r | r in settings.nodeNames
      ensures e.mac in MacsAt(macs, r) <==> exists v :: Carries(estate, settings, r, v, e.mac) {
      DiscoveredMember(estate, settings, r, e.mac);
    }
    forall i | 0 <= i < |settings.nodeNames|
      ensures Reaches(settings, macs, node, settings.nodeNames[i], e) <==>
              settings.nodeNames[i] != node && settings.peers[i] == e.peer &&
              (e.mac == "33:33:00:00:01" || e.mac == "ff:ff:ff:ff:ff:ff" ||
               exists v :: Carries(estate, settings, settings.nodeNames[i], v, e.mac)) {
      assert settings.nodeNames[i] in settings.nodeNames;
    }
  }

  /** A node's lines exist, survive the trip through the file, and say what is wanted. */
  lemma NodeFile(estate: Estate, settings: Settings, node: string)
    requires GoodSettings(settings)
    ensures var es := NodeEntries(estate, settings, node);
            && es.Some? && Entries(Body(RenderAll(es.value))) == es.value
            && forall e :: e in es.value <==> IsWanted(estate, settings, node, e)
  {
    var names := settings.nodeNames;
    var macs := DiscoveredAll(estate, settings, names);
    PeersSuffice(settings, macs, node, names);
    PeersByIndex(settings);
    var es := NodeEntries(estate, settings, node).value;
    forall e ensures e in es <==> IsWanted(estate, settings, node, e) {
      FdbEntriesMember(settings, macs, node, names, e);
      ReachesIffWanted(estate, settings, node, e);
    }
    forall e | e in es ensures IsEntry(e) {
      FdbEntriesMember(settings, macs, node, names, e);
      var i :| 0 <= i < |names| && Reaches(settings, macs, node, names[i], e);
      ReachesGood(estate, settings, node, names[i], e);
    }
    RoundTrip(es);
  }

  /** The node after a complete install, whatever it was before. */
  ghost function Ensured(dev: Device, st: HostState, estate: Estate, settings: Settings, node: string): HostState
    requires GoodSettings(settings)
  {
    NodeFile(estate, settings, node);
    Run(dev, st, Installation(dev, Body(RenderAll(NodeEntries(estate, settings, node).value))))
  }

  /** A node's table after an install: what was in it, and what is wanted, as far as the tool takes it. */
  lemma InstalledMember(dev: Device, st: HostState, estate: Estate, settings: Settings, node: string, e: Entry)
    requires GoodSettings(settings)
    ensures e in Ensured(dev, st, estate, settings, node).table <==>
            e in st.table || (dev.accepts(e) && IsWanted(estate, settings, node, e))
  {
    NodeFile(estate, settings, node);
    InstallSteps(dev, st, Body(RenderAll(NodeEntries(estate, settings, node).value)));
  }

  /** `a` sends `mac` to the peer address of the node at index `j` and nowhere else; on that node itself, nowhere. */
  ghost predicate Delivered(table: set<Entry>, settings: Settings, a: string, j: nat, mac: string)
    requires j < |settings.nodeNames| <= |settings.peers|
  {
    forall p :: Entry(mac, p) in table <==> a != settings.nodeNames[j] && p == settings.peers[j]
  }

  ghost predicate IsPeerOfOther(settings: Settings, a: string, p: string)
    requires |settings.nodeNames| <= |settings.peers|
  {
    exists j :: 0 <= j < |settings.nodeNames| && settings.nodeNames[j] != a && settings.peers[j] == p
  }

  /** `a` sends broadcast to every other node's peer address and nowhere else. */
  ghost predicate Broadcasts(table: set<Entry>, settings: Settings, a: string)
    requires |settings.nodeNames| <= |settings.peers|
  {
    forall p :: Entry("ff:ff:ff:ff:ff:ff", p) in table <==> IsPeerOfOther(settings, a, p)
  }

  /** The only peer that `mac` is wanted at is its own node's. */
  lemma WantedPeer(estate: Estate, settings: Settings, a: string, j: nat, v: int, mac: string, p: string)
    requires GoodSettings(settings) && UniqueMacs(estate, settings)
    requires j < |settings.nodeNames| && Carries(estate, settings, settings.nodeNames[j], v, mac)
    ensures IsWanted(estate, settings, a, Entry(mac, p)) <==> a != settings.nodeNames[j] && p == settings.peers[j]
  {
    CarriedMac(estate, settings, settings.nodeNames[j], v, mac);
    WellKnownMacs();
  }

  /** Delivery after an install on a host in any state: exactly if the table did not already send the MAC
      somewhere else, for an install only adds. */
  lemma Delivery(dev: Device, st: HostState, estate: Estate, settings: Settings, a: string, j: nat, v: int,
                 mac: string)
    requires GoodSettings(settings) && UniqueMacs(estate, settings) && GoodDevice(dev)
    requires j < |settings.nodeNames| && Carries(estate, settings, settings.nodeNames[j], v, mac)
    ensures Delivered(Ensured(dev, st, estate, settings, a).table, settings, a, j, mac) <==>
            forall p | Entry(mac, p) in st.table :: a != settings.nodeNames[j] && p == settings.peers[j]
  {
    CarriedMac(estate, settings, settings.nodeNames[j], v, mac);
    forall p ensures Entry(mac, p) in Ensured(dev, st, estate, settings, a).table <==>
                     Entry(mac, p) in st.table || (a != settings.nodeNames[j] && p == settings.peers[j]) {
      InstalledMember(dev, st, estate, settings, a, Entry(mac, p));
      WantedPeer(estate, settings, a, j, v, mac, p);
    }
  }

  /** The same for broadcast. */
  lemma BroadcastDelivery(dev: Device, st: HostState, estate: Estate, settings: Settings, a: string)
    requires GoodSettings(settings) && UniqueMacs(estate, settings) && GoodDevice(dev)
    ensures Broadcasts(Ensured(dev, st, estate, settings, a).table, settings, a) <==>
            forall p | Entry("ff:ff:ff:ff:ff:ff", p) in st.table :: IsPeerOfOther(settings, a, p)
  {
    WellKnownMacs();
    forall p ensures Entry("ff:ff:ff:ff:ff:ff", p) in Ensured(dev, st, estate, settings, a).table <==>
                     Entry("ff:ff:ff:ff:ff:ff", p) in st.table || IsPeerOfOther(settings, a, p) {
      InstalledMember(dev, st, estate, settings, a, Entry("ff:ff:ff:ff:ff:ff", p));
      WantedBroadcast(estate, settings, a, p);
    }
  }

  lemma WantedBroadcast(estate: Estate, settings: Settings, a: string, p: string)
    requires GoodSettings(settings)
    ensures IsWanted(estate, settings, a, Entry("ff:ff:ff:ff:ff:ff", p)) <==> IsPeerOfOther(settings, a, p)
  {
  }

  /** A VM that moves from node `j` to node `k` between two installs without a wipe: every node but its old one
      still sends its MAC there, so it is not delivered to the new one alone. */
  lemma MovedVmStaysBehind(dev: Device, st: HostState, before: Estate, now: Estate, settings: Settings,
                           a: string, j: nat, k: nat, v: int, w: int, mac: string)
    requires GoodSettings(settings) && GoodDevice(dev) && UniqueMacs(before, settings)
    requires j < |settings.nodeNames| && k < |settings.nodeNames| && j != k && a != settings.nodeNames[j]
    requires Carries(before, settings, settings.nodeNames[j], v, mac)
    requires Carries(now, settings, settings.nodeNames[k], w, mac)
    ensures var after := Ensured(dev, Ensured(dev, st, before, settings, a), now, settings, a);
            && Entry(mac, settings.peers[j]) in after.table
            && !Delivered(after.table, settings, a, k, mac)
  {
    var stale, between := Entry(mac, settings.peers[j]), Ensured(dev, st, before, settings, a);
    CarriedMac(before, settings, settings.nodeNames[j], v, mac);
    InstalledMember(dev, st, before, settings, a, stale);
    WantedPeer(before, settings, a, j, v, mac, stale.peer);
    InstalledMember(dev, between, now, settings, a, stale);
  }

  /** A wipe after the install heals that too: at the next event of the device or `vlab` the table is exactly what
      is wanted, whatever was in it before and whatever else happened since. */
  lemma HealedMember(dev: Device, st: HostState, estate: Estate, settings: Settings, node: string,
                     evs: seq<Event>, iface: string, e: Entry)
    requires GoodSettings(settings) && NoInstall(evs) && Wipe in evs && (iface == dev.name || iface == "vlab")
    ensures e in Run(dev, Ensured(dev, st, estate, settings, node), evs + [IfUp(iface, None)]).table <==>
            dev.accepts(e) && IsWanted(estate, settings, node, e)
  {
    NodeFile(estate, settings, node);
    InstallSteps(dev, st, Body(RenderAll(NodeEntries(estate, settings, node).value)));
    SelfHealing(dev, Ensured(dev, st, estate, settings, node), evs, iface);
  }

  /** ... so every MAC, and broadcast, is delivered. */
  lemma DeliveredAfterWipe(dev: Device, st: HostState, estate: Estate, settings: Settings, evs: seq<Event>,
                           iface: string, a: string, j: nat, v: int, mac: string)
    requires GoodSettings(settings) && UniqueMacs(estate, settings) && GoodDevice(dev)
    requires NoInstall(evs) && Wipe in evs && (iface == dev.name || iface == "vlab")
    requires j < |settings.nodeNames| && Carries(estate, settings, settings.nodeNames[j], v, mac)
    ensures var table := Run(dev, Ensured(dev, st, estate, settings, a), evs + [IfUp(iface, None)]).table;
            Delivered(table, settings, a, j, mac) && Broadcasts(table, settings, a)
  {
    CarriedMac(estate, settings, settings.nodeNames[j], v, mac);
    WellKnownMacs();
    var table := Run(dev, Ensured(dev, st, estate, settings, a), evs + [IfUp(iface, None)]).table;
    forall p ensures Entry(mac, p) in table <==> a != settings.nodeNames[j] && p == settings.peers[j] {
      HealedMember(dev, st, estate, settings, a, evs, iface, Entry(mac, p));
      WantedPeer(estate, settings, a, j, v, mac, p);
    }
    forall p ensures Entry("ff:ff:ff:ff:ff:ff", p) in table <==> IsPeerOfOther(settings, a, p) {
      HealedMember(dev, st, estate, settings, a, evs, iface, Entry("ff:ff:ff:ff:ff:ff", p));
      WantedBroadcast(estate, settings, a, p);
    }
  }

  /** A tool that takes nothing but six-octet addresses never gets the multicast constant into a table. */
  lemma {:induction false} MulticastRefused(dev: Device, st: HostState, evs: seq<Event>, p: string)
    requires forall e: Entry | dev.accepts(e) :: IsMac(e.mac)
    requires Entry("33:33:00:00:01", p) !in st.table
    ensures Entry("33:33:00:00:01", p) !in Run(dev, st, evs).table
  {
    WellKnownMacs();
    if evs != [] {
      MulticastRefused(dev, st, evs[..|evs| - 1], p);
    }
  }

  /** The same estate with some nodes' VM lists unavailable. */
  ghost function Failing(estate: Estate, failed: set<string>): Estate {
    estate.(vmids := estate.vmids - failed)
  }

  /** A failed VM list only omits that node's own MACs from what is installed: everything else is as without the
      failure, and nothing new appears. */
  lemma FailureOnlyOmits(dev: Device, st: HostState, estate: Estate, settings: Settings, failed: set<string>,
                         a: string, e: Entry)
    requires GoodSettings(settings) && UniqueMacs(estate, settings)
    ensures e in Ensured(dev, st, Failing(estate, failed), settings, a).table <==>
            e in st.table || (e in Ensured(dev, st, estate, settings, a).table &&
                              !exists r, v :: r in failed && Carries(estate, settings, r, v, e.mac))
  {
    InstalledMember(dev, st, estate, settings, a, e);
    InstalledMember(dev, st, Failing(estate, failed), settings, a, e);
    forall r, v ensures Carries(Failing(estate, failed), settings, r, v, e.mac) <==>
                        Carries(estate, settings, r, v, e.mac) && r !in failed {
    }
    WellKnownMacs();
    if r, v :| r in failed && Carries(estate, settings, r, v, e.mac) {
      CarriedMac(estate, settings, r, v, e.mac);
    }
  }
}
