# Verified model of the lab's placement, overlay, cleanup and staging logic

Four parts of the repository decide things that are hard to undo: on which hypervisor a VM is created, where
its frames are sent, which volumes are deleted, and which artifact a consumer downloads. This project models
them in Dafny and proves what they guarantee, over every input and over sequences of runs. `dafny verify
dfyconfig.toml` verifies everything.

| part | files | what is proved |
|---|---|---|
| VM placement | `Placement`, `Allocation`, `Planner`, `Builds` | the counters of the loop are exact sums; best fit, spread, capacity safety, when planning can fail; order independence; a record that only grows and keeps every VM where it is |
| SDN forwarding | `FdbText`, `Overlay`, `OverlayHost` | the data file survives the shell's field splitting; no half-written file is ever used; exactly when a MAC is delivered to its own node and nowhere else; the table heals after every wipe |
| Orphan cleanup | `Volumes`, `SshSession`, `Cleanup`, `CleanupGuarantees`, `CleanupAccounts` | detection is exact, removal touches orphans only, the report tells what happened to every volume, a clean report means no orphan is left |
| Artifact staging | `Staging`, `StagingSteps`, `StagingNames`, `StagingGuarantees`, `Histories`, `FileHistories`, `ImageHistories`, `StagingWitnesses` | exactly when a marker or a tag file speaks for the artifact beside it, over every history; idempotence; the phase validator |

`Ordering` has Python's string order, `sorted` and first occurrences; `Wrappers` the option and result types.

## How it is modelled

* Code that updates state in place is a class with loops (`PlacementRecord`, `Host`, `Cluster`,
  `ArtifactHost`) or a method with loops, each proved equal to a function of the state before; the
  guarantees are lemmas about those functions. A Python dict is a `map`, or a sequence of items with distinct
  keys where its insertion order could matter.
* The cluster's answers are parameters: capacities and failed queries of one build (`Build`), VM lists and NIC
  strings (`Estate`), and for cleanup any reply to any attempt, depending on how many came before (`Env`). Whether
  the volume is gone after an attempt is part of the reply, whatever the code makes of it; where a law needs it,
  `Honest` says that what the cluster reports as done is done.
* A host's overlay is a state machine over writes of the `.new` files, moves into place, hook runs to the end or
  not, interface events and wipes. An install may end in any of its steps, half-way through a write or a hook run.
  Which destinations `bridge fdb append` takes is a parameter; the hook swallows its refusals.
* A staging run carries a budget of changes; a run that is cut off, for instance by an image that cannot be pulled,
  or that runs in check mode, is one whose budget ends early. A history of a destination is a sequence of turns,
  each with its own manifest, perhaps rejected, disabled or without the destination, and perhaps followed by the
  publishing step that keeps the marker and removes the body. A run's log holds what Ansible reports as changed.

## Where the code does not do what it says

* `sdn_fdb.py:20-22` and `26-28` promise a map that follows the VMs. An install only adds to the kernel's table, so
  after a VM moved from one node to another without a wipe, other nodes still send its MAC to the old one
  (`MovedVmStaysBehind`). `Delivery` gives the exact condition: the table held no other destination for the MAC
  before. A wipe and the next interface event heal it (`DeliveredAfterWipe`).
* A file pinned to A, then B, then A again keeps serving B: the marker for A is still there and nothing is
  fetched (`FileRollback`); so does a run of B that is cut off between download and marker, between two full runs of
  A (`CutFileRollback`). `AgreementIff` says exactly when a marker can be believed, over every history: it is not
  there, or no body is, or the last fetch reported was from its own source. Two conditions on the pins alone stand
  beside it: `MarkerSpeaksForBody` for histories in which no source returns, cut off or not, and `PinServedIff`,
  exact, for histories of full runs.
* `main.yml:36-42` says that a re-pinned artifact re-stages. One whose source changes only in characters that marker
  names drop, such as `/`, `%` or `+`, does not: `SharedToken` and `RepinFetchedIff`. A bump of anything else does
  (`BumpIsFetched`).
* An image export that is cut off between publishing the tarball and recording its tag, followed by a rollback
  to the old pin, serves the new image under the old tag (`ImageRollback`). `RollbackFailsIff` says exactly when
  that happens; it covers a tag file that outlived a retired tarball too. `TagAgreesIff` and `ImageServedIff` are
  the exact conditions over every history, from the last tarball reported as published; `TagSpeaksForTarball`
  covers histories that finish an interrupted export before they stage another pin.
* `placement.py:256` speaks of a RAM safety margin; line 259 has none, and none is modelled.
* `pve_cleanup.py:260-264` says only `vm-<id>-*` volumes are considered; line 276 takes PVE's owner field first,
  whatever the volume's name. `pve_cleanup.py:254` reports an empty exit status as success (`TaskSucceeds`).
* `validate_phase1.yml:98-99` says no marker is written for bootstrap files; `files.yml` marks every file it
  fetches, and the model follows it.
* The multicast constant at `sdn_fdb.py:70` has five octets. It is kept; no VM can carry it (`FoundMac`), and a bridge
  tool that takes only six-octet addresses never gets it into a table (`MulticastRefused`), so the multicast
  destinations that `sdn_fdb.py:23-24` lists are then missing.

## Model

| member | source | states |
|---|---|---|
| Ordering.LexLeIff | infra/pulumi/modules/placement.py:319-320 | names and keys are compared as Python compares strings: a prefix first, else by the code point where they first differ |
| Planner.MinCandidate | infra/pulumi/modules/placement.py:271 | the selected candidate is one of the list and has the most free RAM; of those the most free disk; of those the first name |
| Placement.BestUnique | infra/pulumi/modules/placement.py:271 | that minimum is unique, so the choice does not depend on the order of the candidates |
| Planner.Candidates | infra/pulumi/modules/placement.py:252-261 | the candidate list holds exactly the nodes that fit the request, with what the running counters leave on them |
| Planner.PlanRequests | infra/pulumi/modules/placement.py:216-276 | the loop with its counters, choices and record refines the plan defined by exact sums over the requests handled so far; a raise names the request and leaves the record as mutated up to there |
| Placement.UsedPrefix | infra/pulumi/modules/placement.py:230-231 | a node's load never shrinks as requests are handled, and changes only when one is put on it |
| Placement.RecordKept | infra/pulumi/modules/placement.py:244-250 | planning never changes or drops an entry of the record it was given |
| Placement.RecordKeys | infra/pulumi/modules/placement.py:272-275 | a finished plan records exactly the requested keys without an override, besides what was recorded |
| Placement.PlanResolves | infra/pulumi/modules/placement.py:235-250 | every request ends on its override, else on its (old or new) record entry, also when a key occurs twice |
| Allocation.BestFit | infra/pulumi/modules/placement.py:270-271 | a fresh pick beats every other node that fits: more free RAM, then more free disk, then the name that comes first |
| Allocation.SpreadAt | infra/pulumi/modules/placement.py:252-275 | if a node's last request was a fresh pick, every node with that request's disk left ends at most its RAM ahead |
| Allocation.CapacitySafe | infra/pulumi/modules/placement.py:240-261 | with known requests first, a node with a fresh pick is within its free RAM and disk at the end, pins included |
| Allocation.RaisesIffStuck | infra/pulumi/modules/placement.py:263-268 | planning raises exactly when some unplaced request finds every node short of RAM or disk, and names that request |
| Allocation.SlackSuffices | infra/pulumi/modules/placement.py:253-268 | free RAM beyond the requested RAM of more than N * (largest - 1) over N nodes, and disk everywhere for all requests, make a raise impossible |
| Allocation.BurstBalanced | infra/pulumi/modules/placement.py:252-275 | equal new VMs on equally free nodes with ample disk end with counts that differ by at most one |
| Planner.PlacementRecord.Load | infra/pulumi/modules/placement.py:72-86 | loading gives the record the file stands for, or the error |
| Planner.LoadedExactly | infra/pulumi/modules/placement.py:72-86 | a missing file is the empty record, an unreadable or non-object file is an error, otherwise the members, the last one of a key winning, with values that are not strings as `str` shows them |
| Planner.PlacementRecord.Save | infra/pulumi/modules/placement.py:88-95 | after a save the file loads as the record, and is an object of strings with its keys in ascending order |
| Planner.SavedUnique | infra/pulumi/modules/placement.py:90-95 | that determines the file: only one content is canonical and loads as the record |
| Planner.LoadSaved | infra/pulumi/modules/placement.py:72-95 | loading what was saved gives the record back |
| Planner.SavedInjective | infra/pulumi/modules/placement.py:90-95 | one record has one saved form, and different records differ |
| Planner.Gather | infra/pulumi/modules/placement.py:300-314 | explicit candidates win over online nodes, which are then not asked for; no ticket, no cluster status, no node or a failed capacity query is an error; repeated nodes collapse |
| Planner.PlanPlacement | infra/pulumi/modules/placement.py:279-335 | load, gather, order, plan, and save only for a real build with new keys; errors leave the file alone |
| Builds.OrderedKnownFirst | infra/pulumi/modules/placement.py:316-324 | the planned list is the VM dict, each VM once, decided keys before new ones, both ascending |
| Builds.EveryVmPlaced | infra/pulumi/modules/placement.py:224-250 | every VM is placed: override beats record beats pick, and picks follow the new record |
| Builds.BuildErrors | infra/pulumi/modules/placement.py:296-314 | how a build fails before it plans, each error exactly when: bad record file, no ticket, no cluster status when no candidates were named, no node, an unread candidate; the file stays |
| Builds.BuildCapacitySafe | infra/pulumi/modules/placement.py:230-275 | every fresh VM goes to a named candidate, or an online node if none was named, and that node ends within its reported free RAM and disk, summed over the whole VM dict |
| Builds.BuildSpread | infra/pulumi/modules/placement.py:252-275 | list-scheduling bound on final leftovers, for the last fresh VM in key order on each node |
| Builds.BuildBalanced | infra/pulumi/modules/placement.py:27-28 | a burst of equal VMs with nothing decided before spreads to within one VM per node |
| Builds.BuildSucceeds | infra/pulumi/modules/placement.py:263-268 | enough slack means the build returns a placement |
| Builds.BuildRaisesIffStuck | infra/pulumi/modules/placement.py:263-268 | with readable inputs the build fails exactly when a fresh VM finds every candidate short, and names it |
| Builds.BuildOrderIndependent | infra/pulumi/modules/placement.py:314-324 | result and record file do not depend on the order of the VM dict nor on order or repetition of candidate nodes |
| Builds.MemoryRecord | infra/pulumi/modules/placement.py:272-275 | a successful build adds exactly one entry per fresh key, the node it returned |
| Builds.MemoryDiffers | infra/pulumi/modules/placement.py:328-331 | record in memory differs from the loaded one exactly when there are fresh keys |
| Builds.DiskRecord | infra/pulumi/modules/placement.py:328-331 | saving only then keeps disk equal to memory after a real build, canonical if there was a fresh key and untouched if not; previews and failures leave the file as it was |
| Builds.FileOnlyGrows | infra/pulumi/modules/placement.py:15-18 | over any sequence of builds, entries of a readable record survive unchanged |
| Builds.PlacementStable | infra/pulumi/modules/placement.py:15-20 | a VM placed without an override by a real build stays on its node in every later successful build, preview or real |
| FdbText.ReadLine | infra/pulumi/modules/sdn_fdb.py:238-241 | one `read`: entries of the text are those of the line and of the input left, and input left shrinks while the loop goes on |
| FdbText.ReadEntries | infra/pulumi/modules/sdn_fdb.py:235-244 | the hook's read loop ends on every text and yields the destinations of its lines, a last line without newline included |
| FdbText.LineIsRead | infra/pulumi/modules/sdn_fdb.py:238 | the first two words of a line are its MAC and its peer, whatever blanks surround them and whatever follows |
| FdbText.OnlyWellFormed | infra/pulumi/modules/sdn_fdb.py:238-243 | whatever the file holds, only pairs of tokens that are not comments reach the kernel table |
| FdbText.RoundTrip | infra/pulumi/modules/sdn_fdb.py:256-262 | what is written is read back in order, with or without the final newline, if and only if every pair is made of non-blank tokens and is no comment |
| Overlay.FindMacLeftmost | infra/pulumi/modules/pve_cleanup.py:187-210 | the MAC search returns the lower-cased first match, and fails only when there is none |
| Overlay.NicIsRead | infra/pulumi/modules/pve_cleanup.py:187-210 | a NIC string with a MAC of either case behind its `virtio=` is read as the same address in lower case |
| Overlay.FoundMac | infra/pulumi/modules/pve_cleanup.py:187-210 | a discovered MAC is a six-octet address in lower case and a plain token, so it is never the five-octet multicast constant |
| Overlay.NodeMacs | infra/pulumi/modules/sdn_fdb.py:184-197 | one node's MACs in ascending VMID order; none when its VM list is unavailable |
| Overlay.DiscoverSdnMacs | infra/pulumi/modules/sdn_fdb.py:174-198 | the MACs of every node in the settings |
| Overlay.DiscoveredMember | infra/pulumi/modules/sdn_fdb.py:192-197 | a MAC is discovered on a node exactly when a VM it lists has that MAC on the NIC its overlay index names |
| Overlay.IndexOf | infra/pulumi/modules/sdn_fdb.py:104 | the first position of the node |
| Overlay.UnderlayIff | infra/pulumi/modules/sdn_fdb.py:103-105 | the underlay of a node is the peer at the position where the node first stands |
| Overlay.PeersByIndex | infra/pulumi/modules/sdn_fdb.py:103-105 | with distinct nodes and a peer for each, it is the peer at the node's own position |
| Overlay.RemoteLines | infra/pulumi/modules/sdn_fdb.py:211-214 | the lines of one remote node: `<mac> <peer>` for each of its MACs, then for the multicast and the broadcast address |
| Overlay.FdbLinesFor | infra/pulumi/modules/sdn_fdb.py:201-215 | the rendered destinations of all remote nodes, or the uncaught error of one without a peer |
| Overlay.PeersSuffice | infra/pulumi/modules/sdn_fdb.py:103-105 | lines are produced exactly when every other node has a peer address |
| Overlay.FdbEntriesMember | infra/pulumi/modules/sdn_fdb.py:206-215 | a node's file points a MAC at a peer exactly when another node there carries it or it is a well-known MAC |
| Overlay.LineCount | infra/pulumi/modules/sdn_fdb.py:206-215 | one line per remote MAC and two per remote node |
| Overlay.LineConservation | infra/pulumi/modules/sdn_fdb.py:206-215 | N nodes holding M MACs write (N - 1) * (M + 2 * N) lines in all |
| Overlay.DocumentedRun | infra/pulumi/README.md:214-215 | 2, 3 and 3 MACs give the first of three nodes 10 lines |
| OverlayHost.Host.RunHook | infra/pulumi/modules/sdn_fdb.py:232-245 | other interfaces and a missing file change nothing; otherwise the file's destinations that the bridge tool takes are added, up to where the run ended |
| OverlayHost.Host.InterfaceUp | infra/pulumi/modules/sdn_fdb.py:32-35 | an interface event runs the hook only if it is installed |
| OverlayHost.Host.Install | infra/pulumi/modules/sdn_fdb.py:262-280 | `.new` data file, move, `.new` hook, move, one hook run, in this order and ended anywhere, half-way through a write included |
| OverlayHost.EnsureSdnFdb | infra/pulumi/modules/sdn_fdb.py:311-338 | discovery once, then every node in turn; a node without lines ends the loop, and the nodes from there on keep their state |
| OverlayHost.WholeFiles | infra/pulumi/modules/sdn_fdb.py:256-277 | over any installs, ended anywhere and started again, any interface events and wipes, the hook in place is the whole script and the data file a whole body |
| OverlayHost.Provenance | infra/pulumi/modules/sdn_fdb.py:32-35 | over any run, what is in the table came from a data file in place since the last wipe, or was there at the start and never wiped |
| OverlayHost.SelfHealing | infra/pulumi/modules/sdn_fdb.py:32-35 | after an install, whatever else happens, the device or `vlab` coming up puts all of the file's destinations that the tool takes in the table, and exactly those if it was wiped since |
| OverlayHost.HookIdempotent | infra/pulumi/modules/sdn_fdb.py:220-223 | further hook runs add nothing; other interfaces change nothing |
| OverlayHost.InterruptedInstall | infra/pulumi/modules/sdn_fdb.py:256-277 | an install ended anywhere takes nothing from the table, and repeating it gives the same host as an uninterrupted one |
| OverlayHost.InstalledMember | infra/pulumi/modules/sdn_fdb.py:201-245 | a node's table after an install on any state: what it held, and the peers of the other nodes, by position, for their MACs and the well-known ones, as far as the tool takes them |
| OverlayHost.Delivery | infra/pulumi/modules/sdn_fdb.py:26-28 | after an install on any state, a MAC of the node at index j points at the j-th peer and nowhere else, and on that node nowhere, if and only if the table held no other destination for it |
| OverlayHost.BroadcastDelivery | infra/pulumi/modules/sdn_fdb.py:23-24 | broadcast goes to exactly the peers of the other nodes if and only if the table held no other broadcast destination |
| OverlayHost.MovedVmStaysBehind | infra/pulumi/modules/sdn_fdb.py:20-22 | a VM that moves between two installs without a wipe is still sent to its old node |
| OverlayHost.HealedMember | infra/pulumi/modules/sdn_fdb.py:29-35 | after an install, any run without another install that holds a wipe, then an event of the device or `vlab`, leaves exactly what is wanted, whatever the table held |
| OverlayHost.DeliveredAfterWipe | infra/pulumi/modules/sdn_fdb.py:26-35 | then every MAC and broadcast is delivered |
| OverlayHost.MulticastRefused | infra/pulumi/modules/sdn_fdb.py:70 | a tool that takes only six-octet addresses never has the multicast constant in a table |
| OverlayHost.FailureOnlyOmits | infra/pulumi/modules/sdn_fdb.py:185-190 | an unavailable VM list removes exactly that node's MACs from what an install adds, on any state, and adds no destination |
| Volumes.SchemeIsRead | infra/pulumi/modules/pve_cleanup.py:275-281 | a volume named vm-<id> or vm-<id>-... without an owner field is attributed to that id |
| Volumes.ParsePadded | infra/pulumi/modules/pve_cleanup.py:280-281 | the id may have ASCII white space around it |
| Volumes.ParseSigned | infra/pulumi/modules/pve_cleanup.py:280-281 | or a sign before it |
| Volumes.OwnerIsRead | infra/pulumi/modules/pve_cleanup.py:273-281 | an entry's owner is PVE's field if there is one, and the id in the name if not |
| Volumes.NoOwner | infra/pulumi/modules/pve_cleanup.py:275-281 | without the field, a name that does not begin with vm-, or has something no number has before the next dash, has no owner |
| Cleanup.WaitTask | infra/pulumi/modules/pve_cleanup.py:244-255 | the outcome of the first deciding poll among sixty |
| CleanupGuarantees.TaskSucceeds | infra/pulumi/modules/pve_cleanup.py:244-255 | success is reported exactly when the task is seen to stop with an accepted exit status within sixty polls |
| CleanupGuarantees.ApiSucceedsIff | infra/pulumi/modules/pve_cleanup.py:225-255 | an API attempt succeeds exactly when the request is accepted with a task and that task is seen to stop well |
| Cleanup.Cluster.DeleteContent | infra/pulumi/modules/pve_cleanup.py:225-242 | one API attempt, logged with its error, and the volume gone if the cluster removed it |
| SshSession.LastCodeIsRead | infra/pulumi/modules/pve_cleanup.py:346-348 | whatever was printed before it, the exit code the remote shell printed last is the one that is read |
| SshSession.LastCodeIff | infra/pulumi/modules/pve_cleanup.py:346-348 | the code read is the one behind the last marker with a digit; none is read if there is no such marker |
| SshSession.SuccessIff | infra/pulumi/modules/pve_cleanup.py:342-357 | any session is a success exactly if it did not time out and the last code printed is zero; without a code never |
| SshSession.SessionSucceedsIff | infra/pulumi/modules/pve_cleanup.py:342-357 | a session that printed a code is a success exactly if it did not time out and the code is zero |
| Cleanup.Cluster.RemoveViaSsh | infra/pulumi/modules/pve_cleanup.py:314-357 | one SSH attempt, judged by its session and logged, or none without pexpect or password |
| Cleanup.Cluster.FindOrphans | infra/pulumi/modules/pve_cleanup.py:257-292 | the orphans of a node, first occurrences in order; an unreadable VM list is an error |
| Cleanup.Cluster.DeleteAll | infra/pulumi/modules/pve_cleanup.py:380-386 | stage one over all orphans |
| Cleanup.Cluster.Fallback | infra/pulumi/modules/pve_cleanup.py:388-412 | stage two over the failures, stopping at the missing-pexpect error |
| Cleanup.Cluster.CleanOneNode | infra/pulumi/modules/pve_cleanup.py:371-423 | detection, both stages and the report of one node |
| Cleanup.Cluster.CleanOrphans | infra/pulumi/modules/pve_cleanup.py:359-424 | all nodes in turn, ended early by an uncaught error |
| CleanupGuarantees.FoundIffUnowned | infra/pulumi/modules/pve_cleanup.py:267-292 | a listed volume whose owner is told by PVE's field, or without it by its name, is found exactly if that VM is not on the node |
| CleanupGuarantees.NotFound | infra/pulumi/modules/pve_cleanup.py:268-283 | nothing is found in a datastore that cannot be listed, nor without a determinable owner, nor of another datastore |
| CleanupGuarantees.OrphansExact | infra/pulumi/modules/pve_cleanup.py:267-292 | the orphans are exactly the volumes of readable datastores with a determinable owner that is not on the node, each once |
| CleanupGuarantees.RepeatedDatastores | infra/pulumi/modules/pve_cleanup.py:268-292 | repeating a datastore changes neither the orphans nor their order |
| CleanupGuarantees.OrphansAfter | infra/pulumi/modules/pve_cleanup.py:267-292 | after removals, the orphans are exactly those that were not removed |
| CleanupAccounts.RemovalAccount | infra/pulumi/modules/pve_cleanup.py:380-412 | one API attempt per orphan, in order; with a fallback one SSH attempt for each that failed, in order, unless pexpect or the password turns out to be missing; each judged by the cluster's answer; the final error is empty exactly when an attempt succeeded |
| CleanupAccounts.NodeRaises | infra/pulumi/modules/pve_cleanup.py:388-408 | a node's pass ends in an uncaught error exactly if its VM list is unreadable or the fallback finds no password |
| CleanupAccounts.NodeAccount | infra/pulumi/modules/pve_cleanup.py:374-423 | the same attempts, and one line per orphan after the header, saying removed exactly when one of its logged attempts succeeded |
| CleanupAccounts.RunAccount | infra/pulumi/modules/pve_cleanup.py:371-424 | over the whole run, each volume that was an orphan at the start has one API attempt, one SSH attempt if that failed and there is a fallback, unless its node gave up for want of pexpect, and one true line; no other volume has any |
| CleanupGuarantees.PreviewReport | infra/pulumi/modules/pve_cleanup.py:415-417 | without apply the report lists every orphan as one that would be removed |
| CleanupGuarantees.PreviewChangesNothing | infra/pulumi/modules/pve_cleanup.py:360-361 | without apply nothing is attempted and nothing changes |
| CleanupGuarantees.CleanSound | infra/pulumi/modules/pve_cleanup.py:359-424 | only volumes that were orphans of a visited node can be gone, also when the run ends in an error; the rest keeps its order |
| CleanupGuarantees.OwnedUntouched | infra/pulumi/modules/pve_cleanup.py:25-28 | a volume of a VM on its node's list, by PVE's field or without it by its name, is never removed |
| CleanupGuarantees.CleanConverges | infra/pulumi/modules/pve_cleanup.py:359-424 | a run that reports no failure leaves no orphan on the visited nodes, if what the cluster reports as done is done |
| CleanupGuarantees.LineTotal | infra/pulumi/modules/pve_cleanup.py:371-424 | the report has one line per node and one per orphan present at the start |
| CleanupGuarantees.ReportInOrder | infra/pulumi/modules/pve_cleanup.py:366-424 | the report is written node by node in the order of the nodes, each part headed by its node |
| Staging.ArtifactHost.Remove | ansible/roles/artifact_stage/tasks/main.yml:73-87 | legacy files are deleted one by one |
| Staging.ArtifactHost.DownloadFiles | ansible/roles/artifact_stage/tasks/files.yml:3-22 | every wanted file that is reachable is fetched over what was there; one failure fails the task |
| Staging.ArtifactHost.RecordSources | ansible/roles/artifact_stage/tasks/files.yml:24-46 | a marker is written where there is none |
| Staging.ArtifactHost.PublishImage | ansible/roles/artifact_stage/tasks/image_publish.yml:17-98 | export, publish, record, drop the legacy marker, as the four stats demand |
| Staging.ArtifactHost.RunRole | ansible/roles/artifact_stage/tasks/main.yml:2-152 | the whole role, task by task |
| StagingNames.TokenOfChar | ansible/roles/artifact_stage/tasks/main.yml:43-46 | a marker name keeps exactly the characters A-Za-z0-9._~- of its source |
| StagingNames.TokenAppend | ansible/roles/artifact_stage/tasks/main.yml:43-46 | each for itself, in order |
| StagingNames.TokenExactly | ansible/roles/artifact_stage/tasks/main.yml:43-46 | a source of such characters is its own token |
| StagingNames.BumpedToken | ansible/roles/artifact_stage/tasks/main.yml:36-42 | replacing one stretch of such characters by another changes the token |
| StagingNames.SharedToken | ansible/roles/artifact_stage/tasks/main.yml:36-42 | sources that differ in other characters only share their token |
| StagingNames.EntryMarker | ansible/roles/artifact_stage/tasks/main.yml:43-51 | an entry's marker stands for its url if it has one, else for its image |
| StagingNames.LegacyNames | ansible/roles/artifact_stage/tasks/main.yml:64-152 | a legacy file is one whose name ends in .published or .sha256 |
| StagingNames.TrimmedEdges | ansible/roles/artifact_stage/tasks/image_publish.yml:46-48 | trimming takes away blanks, tabs and line ends around a printable text |
| StagingGuarantees.RejectedDoesNothing | ansible/roles/artifact_stage/tasks/main.yml:2-26 | a disabled role, or one entry without its source, with another retention or without a relative path, and nothing is done at all |
| StagingGuarantees.PlainManifestAccepted | ansible/roles/artifact_stage/tasks/main.yml:2-26 | a manifest of entries with a source, a relative path and one of the two retentions is accepted |
| StagingGuarantees.RepinFetchedIff | ansible/roles/artifact_stage/tasks/main.yml:36-42 | a completed run on a disk that holds only an old source's marker fetches the new source if and only if the tokens differ |
| StagingGuarantees.BumpIsFetched | ansible/roles/artifact_stage/tasks/main.yml:36-42 | so a bumped source is fetched, whatever marker the old one left |
| StagingGuarantees.FailedDownloadEndsRun | ansible/roles/artifact_stage/tasks/files.yml:3-22 | when one wanted file cannot be fetched, no marker appears and no image is touched |
| StagingGuarantees.OthersStillFetched | ansible/roles/artifact_stage/tasks/files.yml:3-22 | the other wanted files are fetched all the same |
| StagingSteps.WantedIff | ansible/roles/artifact_stage/vars/main.yml:11-24 | with unique names, an entry is left out exactly when it is published or holds a marker for its current source |
| StagingSteps.MarkersAgree | ansible/roles/artifact_stage/tasks/files.yml:33-45 | the writer's marker name is the one that is looked up |
| StagingSteps.StageFrame | ansible/roles/artifact_stage/tasks/main.yml:103-152 | a path that no staged entry owns is left alone, and nothing is reported on it |
| StagingSteps.FileStaged | ansible/roles/artifact_stage/tasks/files.yml:3-41 | cut off anywhere, a staged file has its marker only over a body from its own source, fetched in a run that reports it; both are there at the end |
| StagingSteps.TagReadsBack | ansible/roles/artifact_stage/tasks/image_publish.yml:46-48 | the recorded tag reads back as the image |
| StagingSteps.PublishStep | ansible/roles/artifact_stage/tasks/image_publish.yml:41-98 | cut off anywhere, the tarball and the tag are the new ones exactly if their writes are reported, the tag only after the tarball and both only if needed; left to finish, no export is needed any more |
| FileHistories.AgreementStep | ansible/roles/artifact_stage/tasks/main.yml:28-62 | after any run marker and body agree if and only if the run began without that marker or they agreed |
| FileHistories.AgreementIff | ansible/roles/artifact_stage/tasks/main.yml:36-42 | over every history - cut off anywhere, re-pinned at will, published at any time - marker and body agree if and only if the marker is not there, or no body is, or the last fetch reported was from the marker's source |
| FileHistories.MarkerSpeaksForBody | docs/source/developer/ansible-patterns.rst:85-89 | over any history without a returning source, cut off anywhere and published at any time, a marker for the current source means the body is from it or retired |
| FileHistories.PinServedIff | ansible/roles/artifact_stage/tasks/main.yml:36-42 | full runs end with the last newly pinned source, so they agree with the current pin if and only if that is the last new one |
| FileHistories.RollbackServesStale | ansible/roles/artifact_stage/tasks/main.yml:36-42 | full runs that pin A, B, A end with B under a marker for A |
| StagingWitnesses.FileRollback | ansible/roles/artifact_stage/tasks/files.yml:3-41 | the same from an empty root, step by step |
| StagingWitnesses.CutFileRollback | ansible/roles/artifact_stage/tasks/files.yml:3-41 | the same with the run of B cut off between its download and its marker |
| ImageHistories.TagAgreesIff | ansible/roles/artifact_stage/tasks/image_publish.yml:41-92 | over every history from an honest start, a tag file and its tarball agree if and only if there is no tarball, or the tag is another one, or the last tarball reported as published was of that image |
| ImageHistories.TagSpeaksForTarball | ansible/roles/artifact_stage/tasks/image_publish.yml:41-92 | over any re-pins, skipped runs included, and any interruptions finished before another pin is staged, a tag file equal to an image means the tarball is that image |
| ImageHistories.CompletedRunsSettle | ansible/roles/artifact_stage/tasks/image_publish.yml:41-92 | completed, skipping and retiring turns are such a history, whatever they pin |
| ImageHistories.ImageServedIff | ansible/roles/artifact_stage/tasks/image_publish.yml:49-54 | after any history, a finished run serves the pinned image if and only if the last tarball reported as published is of that image, or none ever was |
| ImageHistories.InterruptionRepaired | ansible/roles/artifact_stage/tasks/image_publish.yml:41-98 | an interruption followed by a finished run under the same pin serves that pin |
| ImageHistories.RollbackFailsIff | ansible/roles/artifact_stage/tasks/image_publish.yml:72-92 | a cut run and then a finished one under another pin serve the wrong image if and only if the cut fell between tarball and tag, the images differ, the tag named the second one, and no legacy digest was there |
| ImageHistories.CutBetween | ansible/roles/artifact_stage/tasks/image_publish.yml:72-92 | the cut falls there exactly if two changes are left when the image's tasks begin |
| StagingWitnesses.ImageRollback | ansible/roles/artifact_stage/tasks/image_publish.yml:41-98 | the same from an empty root, step by step |
| StagingGuarantees.NoLegacyLeft | ansible/roles/artifact_stage/tasks/main.yml:64-152 | a finished run leaves no first-generation marker and no checksum sidecar |
| StagingGuarantees.ValidatorSatisfied | ansible/playbooks/validate_phase1.yml:102-154 | after a finished run the validator's body-or-marker test holds for an entry if and only if it is not merely called published or one of the two was there before |
| StagingGuarantees.SecondRunIdle | ansible/roles/artifact_stage/vars/main.yml:11-24 | a second run of the same manifest downloads and exports nothing |

## Left out

- HTTP, TLS, tickets, pexpect and output scraping: replies are parameters; the text of error messages is kept only as far as it decides emptiness.
- JSON and base64: the record file is a list of members, values that are not strings come with the text `str` makes of them, and the payloads of an install arrive as they are.
- The parsing of `/cluster/status`, `/nodes/*/status` and `/nodes/*/storage`: a build is given the nodes and their free RAM and disk.
- `int()` in `find_orphans`: ASCII digits, signs, underscores and spaces; other Unicode digits are not modelled. NUL bytes in the forwarding file are not modelled.
- Storage shared between nodes: each node's datastore is its own, as the estate's local thin pools are.
- Cleanup while a VM is being created: VM lists do not change during a run.
- `bridge fdb append` failing on a device that is down, and what the kernel does with a second destination of a unicast address: for a destination the tool takes it is the idempotent insert its comment states.
- The advisory probe after an install, and the log lines of installs and placements.
- File modes, owners, directories, package and service tasks of the staging role.
- Hidden files in the legacy searches of the staging role, which `find` skips; the order in which legacy files are deleted is taken as sorted.
- The publishing roles: publishing is the step that leaves a marker and removes the body.
- Staging.ArtifactHost.PublishImage: the scratch copy, which every export overwrites before it is used; a tag file that is not text is taken as not matching, because contents are modelled by their origin and not by their bytes.
- SshSession: Unicode digits after the exit marker, and the redaction of the password in the output.
- `sdn.py`, Pulumi resources, inventories, playbooks other than the validator's test, and the `verify/` suite: polling, declarations and I/O checks.
