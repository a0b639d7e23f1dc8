/** A destination's history under the staging role: runs, complete or cut off, and publishing. */
module Histories {
  import opened Wrappers
  import opened Staging
  import opened StagingSteps

  /** One turn: a run under `cfg`, cut off when `budget` changes are made, and then perhaps the publishing step,
      which leaves the marker and takes the body away. `pin` is the manifest's entry for the destination at that
      time; it may have none, and the role may be disabled or reject the manifest. */
  datatype Turn = Turn(cfg: Config, budget: nat, retire: bool, pin: Option<Entry>)

  function Retire(disk: Disk, e: Entry): Disk {
    disk[Marker(e) := Text("")] - {e.dest}
  }

  function RunOf(disk: Disk, t: Turn): Host {
    Stage(Host(disk, t.budget, []), t.cfg)
  }

  function AfterTurn(disk: Disk, t: Turn): Disk {
    if t.retire && t.pin.Some? then Retire(RunOf(disk, t).disk, t.pin.value) else RunOf(disk, t).disk
  }

  /** The disk after some turns. */
  function After(disk: Disk, turns: seq<Turn>): Disk {
    if turns == [] then disk else AfterTurn(After(disk, turns[..|turns| - 1]), turns[|turns| - 1])
  }

  /** No entry of the turn's manifest but the pin uses `path`. */
  ghost predicate KeepsOff(t: Turn, path: string) {
    !IsLegacyName(path) && forall f | f in Local(t.cfg.manifest) && t.pin != Some(f) :: path !in Outputs(f)
  }

  /** The turn's pin, if it has one, is an entry of this kind for `dest`; an accepted manifest is tidy and holds
      the pin, or nothing at all for the destination's files. */
  ghost predicate TurnFor(t: Turn, kind: Kind, dest: string, files: set<string>) {
    && (t.pin.Some? ==> t.pin.value.kind == kind && t.pin.value.dest == dest)
    && (t.retire ==> t.pin.Some?)
    && (Accepts(t.cfg) ==>
          && Tidy(t.cfg)
          && (t.pin.Some? ==> t.pin.value in Local(t.cfg.manifest))
          && (t.pin.None? ==> forall p | p in files :: KeepsOff(t, p)))
  }

  /** The run does nothing to the pin's files: there is no pin, the role does not get going, or the entry counts
      as published. */
  ghost predicate Skips(disk: Disk, t: Turn) {
    t.pin.None? || !Accepts(t.cfg) || t.pin.value.name in t.cfg.publishedNames || Marker(t.pin.value) in disk
  }

  ghost predicate Finishes(disk: Disk, t: Turn) {
    !Skips(disk, t) && Completes(Host(disk, t.budget, []), t.cfg)
  }

  /** A path that no entry but a skipped pin uses is left alone, and so is what is reported on it. */
  lemma Untouched(disk: Disk, t: Turn, kind: Kind, dest: string, files: set<string>, p: string)
    requires TurnFor(t, kind, dest, files) && Skips(disk, t)
    requires if t.pin.Some? then p in Outputs(t.pin.value) else p in files
    ensures Same(disk, RunOf(disk, t).disk, p)
    ensures forall x | About(x, p) :: x !in RunOf(disk, t).log
  {
    var h := Host(disk, t.budget, []);
    if Accepts(t.cfg) {
      if t.pin.Some? {
        ExcludedUntouched(h, t.cfg, t.pin.value, p);
      } else {
        OffLimits(disk, t, p);
      }
    }
  }

  lemma OffLimits(disk: Disk, t: Turn, p: string)
    requires Accepts(t.cfg) && Tidy(t.cfg) && KeepsOff(t, p)
    requires t.pin.Some? ==> t.pin.value.kind == File && p != t.pin.value.dest && p != Marker(t.pin.value)
    ensures Same(disk, RunOf(disk, t).disk, p)
    ensures forall x | About(x, p) :: x !in RunOf(disk, t).log
  {
    forall f | f in WantedFiles(disk, t.cfg) ensures f.dest != p && MarkerPath(f.dest, OrEmpty(f.url)) != p {
      MarkersAgree(f);
      assert t.pin != Some(f) ==> p !in Outputs(f);
    }
    forall f | f in WantedImages(disk, t.cfg) ensures !Writes(f, p) {
      assert p !in Outputs(f);
    }
    StageFrame(Host(disk, t.budget, []), t.cfg, p);
  }
}
