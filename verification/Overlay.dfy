/** MAC discovery and the forwarding lines of each node. */
module Overlay {
  import opened Wrappers
  import opened Ordering
  import opened FdbText

  const MULTICAST_MAC := "33:33:00:00:01"
  const BROADCAST_MAC := "ff:ff:ff:ff:ff:ff"

  /** `nodeNames` and `peers` are parallel; `nicIndex` gives each estate VM's overlay NIC. */
  datatype Settings = Settings(nodeNames: seq<string>, peers: seq<string>, nicIndex: map<int, int>)

  /** What the API answers: a node's VM set, or no answer; a NIC's config string, where there is one. */
  datatype Estate = Estate(vmids: map<string, set<int>>, nics: map<(string, int, int), string>)

  // ----- node_vm_mac -----

  predicate IsHex(c: char) {
    '0' <= c <= '9' || 'a' <= c <= 'f' || 'A' <= c <= 'F'
  }

  /** Six colon-separated pairs of hex digits. */
  predicate IsMac(s: string) {
    |s| == 17 && forall i | 0 <= i < 17 :: if i % 3 == 2 then s[i] == ':' else IsHex(s[i])
  }

  function Lower(s: string): (r: string)
    ensures |r| == |s|
  {
    seq(|s|, i requires 0 <= i < |s| => if 'A' <= s[i] <= 'Z' then s[i] - 'A' + 'a' else s[i])
  }

  /** Leftmost match of `virtio=` followed by a MAC. */
  function FindMac(net: string): string {
    if |net| < 24 then ""
    else if net[..7] == "virtio=" && IsMac(net[7..24]) then Lower(net[7..24])
    else FindMac(net[1..])
  }

  function VmMac(estate: Estate, node: string, vmid: int, nic: int): string {
    if (node, vmid, nic) in estate.nics then FindMac(estate.nics[(node, vmid, nic)]) else ""
  }

  /** A MAC that discovery can return: never blank, never a comment, never the multicast constant. */
  lemma {:induction false} FoundMac(net: string)
    requires FindMac(net) != ""
    ensures IsMac(FindMac(net)) && IsToken(FindMac(net)) && FindMac(net)[0] != '#'
    ensures FindMac(net) != "33:33:00:00:01"
    ensures LowerMacText(FindMac(net))
  {
    if net[..7] == "virtio=" && IsMac(net[7..24]) {
      LowerMac(net[7..24]);
    } else {
      FoundMac(net[1..]);
    }
  }

  /** Six pairs of lower-case hex digits with colons between them. */
  ghost predicate LowerMacText(s: string) {
    |s| == 17 && forall i | 0 <= i < 17 ::
      if i % 3 == 2 then s[i] == ':' else '0' <= s[i] <= '9' || 'a' <= s[i] <= 'f'
  }

  /** ... and of hex digits of either case. */
  ghost predicate AnyMacText(s: string) {
    |s| == 17 && forall i | 0 <= i < 17 ::
      if i % 3 == 2 then s[i] == ':' else '0' <= s[i] <= '9' || 'a' <= s[i] <= 'f' || 'A' <= s[i] <= 'F'
  }

  ghost function HexValue(c: char): int {
    if '0' <= c <= '9' then c as int - '0' as int
    else if 'a' <= c <= 'f' then c as int - 'a' as int + 10
    else if 'A' <= c <= 'F' then c as int - 'A' as int + 10
    else -1
  }

  /** Both stand for one address. */
  ghost predicate SameAddress(s: string, t: string) {
    |s| == |t| && forall i | 0 <= i < |s| :: HexValue(s[i]) == HexValue(t[i])
  }

  lemma LowerMac(s: string)
    requires IsMac(s)
    ensures IsMac(Lower(s)) && IsToken(Lower(s)) && Lower(s)[0] != '#'
    ensures LowerMacText(Lower(s)) && SameAddress(Lower(s), s)
  {
    forall i | 0 <= i < 17
      ensures !IsBlank(Lower(s)[i]) && HexValue(Lower(s)[i]) == HexValue(s[i])
      ensures if i % 3 == 2 then Lower(s)[i] == ':' else '0' <= Lower(s)[i] <= '9' || 'a' <= Lower(s)[i] <= 'f' {
      assert if i % 3 == 2 then s[i] == ':' else IsHex(s[i]);
    }
  }

  /** A NIC string with a MAC behind its first `virtio=` is read as that address, in lower case. */
  lemma {:induction false} NicIsRead(lead: string, mac: string, tail: string)
    requires 'v' !in lead && AnyMacText(mac)
    ensures var found := FindMac(lead + ("virtio=" + mac + tail));
            LowerMacText(found) && SameAddress(found, mac)
  {
    var net := lead + ("virtio=" + mac + tail);
    if lead == "" {
      assert net[..7] == "virtio=" && net[7..24] == mac;
      LowerMac(mac);
    } else {
      assert net[0] == lead[0] && lead[0] in lead;
      assert net[1..] == lead[1..] + ("virtio=" + mac + tail);
      assert net[..7][0] == lead[0];
      NicIsRead(lead[1..], mac, tail);
    }
  }

  ghost predicate MacAt(net: string, i: int) {
    0 <= i <= |net| - 24 && net[i..i + 7] == "virtio=" && IsMac(net[i + 7..i + 24])
  }

  /** The search finds the first place that matches, and fails only when there is none. */
  lemma {:induction false} FindMacLeftmost(net: string)
    ensures FindMac(net) == "" <==> forall i :: !MacAt(net, i)
    ensures FindMac(net) != "" ==>
              exists i :: MacAt(net, i) && FindMac(net) == Lower(net[i + 7..i + 24]) &&
                          forall j | j < i :: !MacAt(net, j)
  {
    if |net| >= 24 {
      if MacAt(net, 0) {
        assert net[0..7] == net[..7] && |Lower(net[7..24])| == 17;
      } else {
        assert net[..7] == net[0..7];
        FindMacLeftmost(net[1..]);
        forall i | i >= 1 ensures MacAt(net, i) <==> MacAt(net[1..], i - 1) {
          if i <= |net| - 24 {
            assert net[1..][i - 1..i + 6] == net[i..i + 7] && net[1..][i + 6..i + 23] == net[i + 7..i + 24];
          }
        }
        forall i ensures MacAt(net, i) ==> i >= 1 && MacAt(net[1..], i - 1) {
        }
        if FindMac(net) != "" {
          var k :| MacAt(net[1..], k) && FindMac(net) == Lower(net[1..][k + 7..k + 24]) &&
                   forall j | j < k :: !MacAt(net[1..], j);
          assert net[1..][k + 7..k + 24] == net[k + 8..k + 25];
          assert MacAt(net, k + 1);
        }
      }
    }
  }

  // ----- _discover_sdn_macs -----

  function SortedInts(s: set<int>): (r: seq<int>)
    ensures forall x :: x in r <==> x in s
    ensures forall i, j | 0 <= i < j < |r| :: r[i] < r[j]
  {
    SortedSetSorted(IntLe, s);
    SortedSet(IntLe, s)
  }

  function MacsOf(estate: Estate, settings: Settings, node: string, vmids: seq<int>): seq<string>
    requires forall v | v in vmids :: v in settings.nicIndex
  {
    if vmids == [] then []
    else
      var last := |vmids| - 1;
      var mac := VmMac(estate, node, vmids[last], settings.nicIndex[vmids[last]]);
      var before := MacsOf(estate, settings, node, vmids[..last]);
      if mac != "" then before + [mac] else before
  }

  /** A node's overlay MACs in VMID order; none when its VM list is unavailable. */
  function Discovered(estate: Estate, settings: Settings, node: string): seq<string> {
    if node !in estate.vmids then []
    else MacsOf(estate, settings, node, SortedInts(estate.vmids[node] * settings.nicIndex.Keys))
  }

  ghost function DiscoveredAll(estate: Estate, settings: Settings, names: seq<string>): map<string, seq<string>> {
    map n | n in names :: Discovered(estate, settings, n)
  }

  lemma DiscoveredStep(estate: Estate, settings: Settings, names: seq<string>, i: nat)
    requires i < |names|
    ensures DiscoveredAll(estate, settings, names[..i + 1]) ==
            DiscoveredAll(estate, settings, names[..i])[names[i] := Discovered(estate, settings, names[i])]
  {
    assert names[..i + 1] == names[..i] + [names[i]];
  }

  method ReadMacs(estate: Estate, settings: Settings, node: string, vmids: seq<int>) returns (nodeMacs: seq<string>)
    requires forall v | v in vmids :: v in settings.nicIndex
    ensures nodeMacs == MacsOf(estate, settings, node, vmids)
  {
    nodeMacs := [];
    for j := 0 to |vmids|
      invariant nodeMacs == MacsOf(estate, settings, node, vmids[..j])
    {
      assert vmids[..j + 1][..j] == vmids[..j];
      var mac := VmMac(estate, node, vmids[j], settings.nicIndex[vmids[j]]);
      if mac != "" {
        nodeMacs := nodeMacs + [mac];
      }
    }
    assert vmids[..|vmids|] == vmids;
  }

  method NodeMacs(estate: Estate, settings: Settings, node: string) returns (nodeMacs: seq<string>)
    ensures nodeMacs == Discovered(estate, settings, node)
  {
    if node !in estate.vmids {
      return [];
    }
    nodeMacs := ReadMacs(estate, settings, node, SortedInts(estate.vmids[node] * settings.nicIndex.Keys));
  }

  method DiscoverSdnMacs(estate: Estate, settings: Settings) returns (macs: map<string, seq<string>>)
    ensures macs == DiscoveredAll(estate, settings, settings.nodeNames)
  {
    macs := map[];
    var names := settings.nodeNames;
    for i := 0 to |names|
      invariant macs == DiscoveredAll(estate, settings, names[..i])
    {
      DiscoveredStep(estate, settings, names, i);
      var nodeMacs := NodeMacs(estate, settings, names[i]);
      macs := macs[names[i] := nodeMacs];
    }
    assert names[..|names|] == names;
  }

  /** Discovery returns the MACs of exactly the estate VMs the node lists. */
  lemma {:induction false} MacsOfMember(estate: Estate, settings: Settings, node: string, vmids: seq<int>, mac: string)
    requires forall v | v in vmids :: v in settings.nicIndex
    ensures mac in MacsOf(estate, settings, node, vmids) <==>
            mac != "" && exists v :: v in vmids && VmMac(estate, node, v, settings.nicIndex[v]) == mac
  {
    if vmids != [] {
      var last := |vmids| - 1;
      MacsOfMember(estate, settings, node, vmids[..last], mac);
      assert vmids == vmids[..last] + [vmids[last]];
    }
  }

  /** VM `v` is listed on `node` and its overlay NIC carries `mac`. */
  ghost predicate Carries(estate: Estate, settings: Settings, node: string, v: int, mac: string) {
    && node in estate.vmids && v in estate.vmids[node] && v in settings.nicIndex
    && (node, v, settings.nicIndex[v]) in estate.nics
    && mac != "" && FindMac(estate.nics[(node, v, settings.nicIndex[v])]) == mac
  }

  lemma DiscoveredMember(estate: Estate, settings: Settings, node: string, mac: string)
    ensures mac in Discovered(estate, settings, node) <==> exists v :: Carries(estate, settings, node, v, mac)
  {
    if node in estate.vmids {
      var vmids := SortedInts(estate.vmids[node] * settings.nicIndex.Keys);
      MacsOfMember(estate, settings, node, vmids, mac);
      forall v ensures v in vmids && mac != "" && VmMac(estate, node, v, settings.nicIndex[v]) == mac <==>
                       Carries(estate, settings, node, v, mac) {
      }
    }
  }

  // ----- underlay_for, _fdb_lines_for -----

  /** `node_names.index(node)`: the first position. */
  function IndexOf(names: seq<string>, node: string): (i: nat)
    requires node in names
    ensures i < |names| && names[i] == node && node !in names[..i]
  {
    if names[0] == node then 0
    else
      var i := IndexOf(names[1..], node);
      assert names[..1 + i] == [names[0]] + names[1..][..i];
      1 + i
  }

  /** The peer at a node's first position; an unknown node or a position past `peers` raises. */
  function UnderlayFor(settings: Settings, node: string): Option<string> {
    if node in settings.nodeNames && IndexOf(settings.nodeNames, node) < |settings.peers|
    then Some(settings.peers[IndexOf(settings.nodeNames, node)])
    else None
  }

  function Toward(peer: string, macs: seq<string>): (es: seq<Entry>)
    ensures |es| == |macs| && forall i | 0 <= i < |es| :: es[i] == Entry(macs[i], peer)
  {
    seq(|macs|, i requires 0 <= i < |macs| => Entry(macs[i], peer))
  }

  function MacsAt(macs: map<string, seq<string>>, node: string): seq<string> {
    if node in macs then macs[node] else []
  }

  /** The destinations one remote node contributes. */
  function RemoteEntries(macs: map<string, seq<string>>, remote: string, peer: string): seq<Entry> {
    Toward(peer, MacsAt(macs, remote) + [MULTICAST_MAC, BROADCAST_MAC])
  }

  /** A node's destinations; `None` is the uncaught error of a remote node without a peer address. */
  ghost function FdbEntries(settings: Settings, macs: map<string, seq<string>>, node: string,
                            remotes: seq<string>): Option<seq<Entry>> {
    if remotes == [] then Some([])
    else
      var last := remotes[|remotes| - 1];
      var before := FdbEntries(settings, macs, node, remotes[..|remotes| - 1]);
      if before.None? || last == node then before
      else if UnderlayFor(settings, last).None? then None
      else Some(before.value + RemoteEntries(macs, last, UnderlayFor(settings, last).value))
  }

  lemma FdbEntriesStep(settings: Settings, macs: map<string, seq<string>>, node: string, names: seq<string>, i: nat)
    requires i < |names| && FdbEntries(settings, macs, node, names[..i]).Some?
    ensures FdbEntries(settings, macs, node, names[..i + 1]) ==
            var before := FdbEntries(settings, macs, node, names[..i]);
            if names[i] == node then before
            else if UnderlayFor(settings, names[i]).None? then None
            else Some(before.value + RemoteEntries(macs, names[i], UnderlayFor(settings, names[i]).value))
  {
    assert names[..i + 1][..i] == names[..i];
  }

  lemma {:induction false} RaisedStays(settings: Settings, macs: map<string, seq<string>>, node: string,
                                       names: seq<string>, i: nat)
    requires i <= |names| && FdbEntries(settings, macs, node, names[..i]).None?
    ensures FdbEntries(settings, macs, node, names).None?
  {
    if i == |names| {
      assert names[..i] == names;
    } else {
      assert names[..|names| - 1][..i] == names[..i];
      RaisedStays(settings, macs, node, names[..|names| - 1], i);
    }
  }

  /** The lines for one remote node: its MACs, then the two well-known ones. */
  method RemoteLines(remoteMacs: seq<string>, peer: string) returns (lines: seq<string>)
    ensures lines == RenderAll(Toward(peer, remoteMacs + [MULTICAST_MAC, BROADCAST_MAC]))
    ensures var n := |remoteMacs|;
            && |lines| == n + 2 && (forall i | 0 <= i < n :: lines[i] == remoteMacs[i] + " " + peer)
            && lines[n] == "33:33:00:00:01 " + peer && lines[n + 1] == "ff:ff:ff:ff:ff:ff " + peer
  {
    lines := [];
    for j := 0 to |remoteMacs|
      invariant lines == RenderAll(Toward(peer, remoteMacs[..j]))
    {
      lines := lines + [remoteMacs[j] + " " + peer];
    }
    lines := lines + [MULTICAST_MAC + " " + peer];
    lines := lines + [BROADCAST_MAC + " " + peer];
  }

  lemma RenderAppend(a: seq<Entry>, b: seq<Entry>)
    ensures RenderAll(a + b) == RenderAll(a) + RenderAll(b)
  {
  }

  method FdbLinesFor(node: string, settings: Settings, macs: map<string, seq<string>>)
      returns (lines: Option<seq<string>>)
    ensures var es := FdbEntries(settings, macs, node, settings.nodeNames);
            lines == if es.Some? then Some(RenderAll(es.value)) else None
  {
    var acc: seq<string> := [];
    var names := settings.nodeNames;
    ghost var es: seq<Entry> := [];
    for i := 0 to |names|
      invariant FdbEntries(settings, macs, node, names[..i]) == Some(es)
      invariant acc == RenderAll(es)
    {
      FdbEntriesStep(settings, macs, node, names, i);
      if names[i] != node {
        var peer := UnderlayFor(settings, names[i]);
        if peer.None? {
          RaisedStays(settings, macs, node, names, i + 1);
          return None;
        }
        var remoteLines := RemoteLines(MacsAt(macs, names[i]), peer.value);
        RenderAppend(es, RemoteEntries(macs, names[i], peer.value));
        acc := acc + remoteLines;
        es := es + RemoteEntries(macs, names[i], peer.value);
      }
    }
    assert names[..|names|] == names;
    return Some(acc);
  }

  // ----- What the lines say -----

  /** `p` stands in `peers` where `r` first stands in `nodeNames`. */
  ghost predicate PeerOf(settings: Settings, r: string, p: string) {
    exists i :: 0 <= i < |settings.nodeNames| && i < |settings.peers| && settings.nodeNames[i] == r &&
                r !in settings.nodeNames[..i] && settings.peers[i] == p
  }

  lemma UnderlayIff(settings: Settings, r: string, p: string)
    ensures UnderlayFor(settings, r) == Some(p) <==> PeerOf(settings, r, p)
  {
    if PeerOf(settings, r, p) {
      var i :| 0 <= i < |settings.nodeNames| && i < |settings.peers| && settings.nodeNames[i] == r &&
               r !in settings.nodeNames[..i] && settings.peers[i] == p;
      var j := IndexOf(settings.nodeNames, r);
      assert settings.nodeNames[i] == settings.nodeNames[j] == r;
    }
  }

  /** With distinct nodes and a peer for each, it is the peer at the node's own position. */
  lemma PeersByIndex(settings: Settings)
    requires NoRepeats(settings.nodeNames) && |settings.nodeNames| <= |settings.peers|
    ensures forall j, p | 0 <= j < |settings.nodeNames| ::
              PeerOf(settings, settings.nodeNames[j], p) <==> p == settings.peers[j]
    ensures forall j | 0 <= j < |settings.nodeNames| :: HasPeer(settings, settings.nodeNames[j])
  {
    forall j, p | 0 <= j < |settings.nodeNames|
      ensures PeerOf(settings, settings.nodeNames[j], p) <==> p == settings.peers[j] {
      assert settings.nodeNames[j] !in settings.nodeNames[..j];
    }
    assert forall j | 0 <= j < |settings.nodeNames| :: PeerOf(settings, settings.nodeNames[j], settings.peers[j]);
  }

  ghost predicate HasPeer(settings: Settings, r: string) {
    exists p :: PeerOf(settings, r, p)
  }

  lemma UnderlayExists(settings: Settings, r: string)
    ensures UnderlayFor(settings, r).Some? <==> HasPeer(settings, r)
  {
    if UnderlayFor(settings, r).Some? {
      UnderlayIff(settings, r, UnderlayFor(settings, r).value);
    }
    if p :| PeerOf(settings, r, p) {
      UnderlayIff(settings, r, p);
    }
  }

  /** Lines are produced exactly when every other node has a peer address. */
  lemma {:induction false} PeersSuffice(settings: Settings, macs: map<string, seq<string>>, node: string,
                                        remotes: seq<string>)
    ensures FdbEntries(settings, macs, node, remotes).Some? <==>
            forall i | 0 <= i < |remotes| :: remotes[i] == node || HasPeer(settings, remotes[i])
  {
    if remotes != [] {
      PeersSuffice(settings, macs, node, remotes[..|remotes| - 1]);
      UnderlayExists(settings, remotes[|remotes| - 1]);
    }
  }

  /** `r` is another node, at `peer`, that carries `mac` or is reached by a well-known MAC. */
  ghost predicate Reaches(settings: Settings, macs: map<string, seq<string>>, node: string, r: string, e: Entry) {
    && r != node && PeerOf(settings, r, e.peer)
    && (e.mac in MacsAt(macs, r) || e.mac == MULTICAST_MAC || e.mac == BROADCAST_MAC)
  }

  /** A node's file points a MAC at a peer exactly when another node there is reached by it. */
  lemma {:induction false} FdbEntriesMember(settings: Settings, macs: map<string, seq<string>>, node: string,
                                            remotes: seq<string>, e: Entry)
    requires FdbEntries(settings, macs, node, remotes).Some?
    ensures e in FdbEntries(settings, macs, node, remotes).value <==>
            exists i :: 0 <= i < |remotes| && Reaches(settings, macs, node, remotes[i], e)
  {
    if remotes != [] {
      var last := |remotes| - 1;
      FdbEntriesMember(settings, macs, node, remotes[..last], e);
      if remotes[last] != node {
        var peer := UnderlayFor(settings, remotes[last]).value;
        UnderlayIff(settings, remotes[last], e.peer);
        TowardMember(peer, MacsAt(macs, remotes[last]) + [MULTICAST_MAC, BROADCAST_MAC], e);
      }
    }
  }

  lemma TowardMember(peer: string, macs: seq<string>, e: Entry)
    ensures e in Toward(peer, macs) <==> e.peer == peer && e.mac in macs
  {
    if e.peer == peer && e.mac in macs {
      var i :| 0 <= i < |macs| && macs[i] == e.mac;
      assert Toward(peer, macs)[i] == e;
    }
  }

  // ----- How many lines there are -----

  ghost function MacCount(macs: map<string, seq<string>>, names: seq<string>): nat {
    if names == [] then 0 else MacCount(macs, names[..|names| - 1]) + |MacsAt(macs, names[|names| - 1])|
  }

  /** A node's file has one line per remote MAC and two per remote node. */
  lemma {:induction false} LineCount(settings: Settings, macs: map<string, seq<string>>, node: string,
                                     remotes: seq<string>)
    requires FdbEntries(settings, macs, node, remotes).Some? && NoRepeats(remotes)
    ensures |FdbEntries(settings, macs, node, remotes).value| ==
            MacCount(macs, remotes) + 2 * |remotes| - if node in remotes then |MacsAt(macs, node)| + 2 else 0
  {
    if remotes != [] {
      var last := |remotes| - 1;
      LineCount(settings, macs, node, remotes[..last]);
      assert remotes == remotes[..last] + [remotes[last]];
    }
  }

  ghost predicate AllHaveLines(settings: Settings, macs: map<string, seq<string>>, names: seq<string>) {
    forall i | 0 <= i < |names| :: FdbEntries(settings, macs, names[i], settings.nodeNames).Some?
  }

  ghost function TotalLines(settings: Settings, macs: map<string, seq<string>>, names: seq<string>): nat
    requires AllHaveLines(settings, macs, names)
  {
    if names == [] then 0
    else
      TotalLines(settings, macs, names[..|names| - 1]) +
      |FdbEntries(settings, macs, names[|names| - 1], settings.nodeNames).value|
  }

  lemma MulSucc(n: int, x: int)
    ensures (n + 1) * x == n * x + x
  {
  }

  lemma {:induction false} TotalOverNodes(settings: Settings, macs: map<string, seq<string>>, names: seq<string>,
                                          all: nat)
    requires AllHaveLines(settings, macs, names) && NoRepeats(settings.nodeNames)
    requires forall i | 0 <= i < |names| :: names[i] in settings.nodeNames
    requires all == MacCount(macs, settings.nodeNames) + 2 * |settings.nodeNames|
    ensures TotalLines(settings, macs, names) + MacCount(macs, names) + 2 * |names| == |names| * all
  {
    if names != [] {
      var last := |names| - 1;
      TotalOverNodes(settings, macs, names[..last], all);
      LineCount(settings, macs, names[last], settings.nodeNames);
      MulSucc(last, all);
    }
  }

  /** Conservation: N nodes holding M MACs write (N - 1) * (M + 2 * N) lines in all. */
  lemma LineConservation(settings: Settings, macs: map<string, seq<string>>)
    requires NoRepeats(settings.nodeNames) && AllHaveLines(settings, macs, settings.nodeNames)
    ensures TotalLines(settings, macs, settings.nodeNames) ==
            (|settings.nodeNames| - 1) * (MacCount(macs, settings.nodeNames) + 2 * |settings.nodeNames|)
  {
    var n, all := |settings.nodeNames|, MacCount(macs, settings.nodeNames) + 2 * |settings.nodeNames|;
    TotalOverNodes(settings, macs, settings.nodeNames, all);
    MulSucc(n - 1, all);
  }

  /** The documented run: 2, 3 and 3 MACs give the first of three nodes its 10 lines. */
  lemma DocumentedRun(settings: Settings, macs: map<string, seq<string>>)
    requires |settings.nodeNames| == 3 && NoRepeats(settings.nodeNames) && |settings.peers| == 3
    requires |MacsAt(macs, settings.nodeNames[0])| == 2
    requires |MacsAt(macs, settings.nodeNames[1])| == 3 && |MacsAt(macs, settings.nodeNames[2])| == 3
    ensures var es := FdbEntries(settings, macs, settings.nodeNames[0], settings.nodeNames);
            es.Some? && |es.value| == 10
  {
    var names := settings.nodeNames;
    PeersSuffice(settings, macs, names[0], names);
    PeersByIndex(settings);
    LineCount(settings, macs, names[0], names);
    assert names[..2][..1] == names[..1] && names[..1][..0] == [];
    assert MacCount(macs, names[..1]) == |MacsAt(macs, names[0])|;
    assert MacCount(macs, names[..2]) == 5;
  }
}
