/** Over any history of an image's destination: when does the tag file speak for the tarball beside it? */
module ImageHistories {
  import opened Wrappers
  import opened Staging
  import opened StagingSteps
  import opened Histories

  ghost predicate Serves(disk: Disk, dest: string, image: string) {
    dest in disk && disk[dest] == Tarball(image)
  }

  ghost predicate TagHonest(disk: Disk, dest: string) {
    forall image :: TagAgrees(disk, dest, image)
  }

  // ----- One turn -----

  function ImageFiles(dest: string): set<string> {
    {dest, dest + ".tag", dest + ".digest"}
  }

  ghost predicate ImageTurn(t: Turn, dest: string) {
    TurnFor(t, Image, dest, ImageFiles(dest)) && (t.pin.Some? ==> NoEdgeSpace(OrEmpty(t.pin.value.image)))
  }

  /** The image a turn pins. */
  function Pinned(t: Turn): string {
    if t.pin.Some? then OrEmpty(t.pin.value.image) else ""
  }

  /** The run reports publishing the tarball. */
  predicate Publishes(disk: Disk, t: Turn) {
    t.pin.Some? && Publish(t.pin.value.dest, Pinned(t)) in RunOf(disk, t).log
  }

  /** The run reports recording the tag. */
  predicate Records(disk: Disk, t: Turn) {
    t.pin.Some? && Record(t.pin.value.dest, Pinned(t)) in RunOf(disk, t).log
  }

  /** A run that skips the image leaves its files as they are. */
  lemma SkippedStep(disk: Disk, t: Turn, dest: string)
    requires ImageTurn(t, dest) && Skips(disk, t)
    ensures !Publishes(disk, t) && !Records(disk, t)
    ensures forall p | p in ImageFiles(dest) :: Same(disk, RunOf(disk, t).disk, p)
  {
    forall p | p in ImageFiles(dest)
      ensures Same(disk, RunOf(disk, t).disk, p) && forall x | About(x, p) :: x !in RunOf(disk, t).log {
      Untouched(disk, t, Image, dest, ImageFiles(dest), p);
    }
    assert About(Publish(dest, Pinned(t)), dest) && About(Record(dest, Pinned(t)), dest);
  }

  /** What a turn may do to the tarball and the tag, told by what its run reports. */
  ghost predicate TurnLink(disk: Disk, t: Turn, dest: string) {
    var after := AfterTurn(disk, t);
    && (Publishes(disk, t) ==> !Skips(disk, t) && NeedsExport(disk, t.pin.value))
    && (Records(disk, t) ==> Publishes(disk, t))
    && (t.retire ==> dest !in after)
    && (!t.retire ==> if Publishes(disk, t) then Serves(after, dest, Pinned(t)) else Same(disk, after, dest))
    && (if Records(disk, t) then HasTag(after, dest, Pinned(t)) else Same(disk, after, dest + ".tag"))
    && (Publishes(disk, t) && !Records(disk, t) ==> (dest + ".digest" in after <==> dest + ".digest" in disk))
    && (Finishes(disk, t) ==>
          && (NeedsExport(disk, t.pin.value) ==> Records(disk, t))
          && (!t.retire ==> !NeedsExport(after, t.pin.value)))
  }

  /** Retiring removes the tarball and leaves the tag files. */
  lemma RetireStep(disk: Disk, e: Entry)
    ensures e.dest !in Retire(disk, e)
    ensures Same(disk, Retire(disk, e), TagFile(e)) && Same(disk, Retire(disk, e), DigestFile(e))
  {
    OwnPathsDiffer(e);
  }

  lemma TurnLinks(disk: Disk, t: Turn, dest: string)
    requires ImageTurn(t, dest)
    ensures TurnLink(disk, t, dest)
  {
    if t.pin.Some? {
      RetireStep(RunOf(disk, t).disk, t.pin.value);
    }
    if Skips(disk, t) {
      SkippedStep(disk, t, dest);
      assert dest in ImageFiles(dest) && dest + ".tag" in ImageFiles(dest);
    } else {
      ImageStaged(Host(disk, t.budget, []), t.cfg, t.pin.value);
    }
  }

  // ----- Any history -----

  ghost predicate ImageHistory(turns: seq<Turn>, dest: string) {
    forall t | t in turns :: ImageTurn(t, dest)
  }

  /** The image of the last tarball that a run of the history reports publishing. */
  function LastPublished(disk: Disk, turns: seq<Turn>): Option<string> {
    if turns == [] then None
    else
      var init, t := turns[..|turns| - 1], turns[|turns| - 1];
      if Publishes(After(disk, init), t) then Some(Pinned(t)) else LastPublished(disk, init)
  }

  /** A tarball is the last one published; as long as none was, the tag is as honest as in the beginning. */
  lemma {:induction false} Ledger(disk: Disk, turns: seq<Turn>, dest: string)
    requires ImageHistory(turns, dest) && TagHonest(disk, dest)
    ensures var after, last := After(disk, turns), LastPublished(disk, turns);
            if last.Some? then dest in after ==> after[dest] == Tarball(last.value) else TagHonest(after, dest)
  {
    if turns != [] {
      var init, t := turns[..|turns| - 1], turns[|turns| - 1];
      assert t in turns;
      Ledger(disk, init, dest);
      TurnLinks(After(disk, init), t, dest);
      if LastPublished(disk, turns).None? {
        SameTag(After(disk, init), After(disk, turns), dest);
      }
    }
  }

  lemma SameTag(before: Disk, after: Disk, dest: string)
    requires TagHonest(before, dest)
    requires (dest in after ==> Same(before, after, dest)) && Same(before, after, dest + ".tag")
    ensures TagHonest(after, dest)
  {
    forall image ensures TagAgrees(after, dest, image) {
      assert TagAgrees(before, dest, image);
    }
  }

  /** Exactly when the tag file can be believed, over every history - cut off anywhere, re-pinned at will, rolled
      back, published at any time: if there is no tarball, or the tag is another one, or the last tarball reported
      as published was of the image the tag names. */
  lemma TagAgreesIff(disk: Disk, turns: seq<Turn>, dest: string, image: string)
    requires ImageHistory(turns, dest) && TagHonest(disk, dest)
    ensures var after, last := After(disk, turns), LastPublished(disk, turns);
            TagAgrees(after, dest, image) <==>
            dest !in after || !TagMatches(after, dest, image) || last == None || last == Some(image)
  {
    Ledger(disk, turns, dest);
    if LastPublished(disk, turns).None? {
      assert TagAgrees(After(disk, turns), dest, image);
    }
  }

  /** Hence a run to its end, after any history, serves its pin exactly if the last tarball that any run of the
      history, itself included, reports as published was of that image, or none was published at all. */
  lemma ImageServedIff(disk: Disk, turns: seq<Turn>, t: Turn, dest: string)
    requires ImageHistory(turns + [t], dest) && TagHonest(disk, dest)
    requires Finishes(After(disk, turns), t) && !t.retire
    ensures var after, last := After(disk, turns + [t]), LastPublished(disk, turns + [t]);
            && dest in after && TagMatches(after, dest, Pinned(t))
            && (Serves(after, dest, Pinned(t)) <==> last == None || last == Some(Pinned(t)))
  {
    assert (turns + [t])[..|turns|] == turns && t in turns + [t];
    TurnLinks(After(disk, turns), t, dest);
    TagAgreesIff(disk, turns + [t], dest, Pinned(t));
  }

  // ----- An interruption, then a run to its end -----

  /** From an honest disk, a run of one pin that is cut off and then a run of another to its end fail to serve the
      second pin exactly if the first published its tarball without recording its tag, the images differ, the tag
      file named the second image all along, and no legacy digest marker was there to force an export. */
  lemma RollbackFailsIff(disk: Disk, cut: Turn, full: Turn, dest: string)
    requires ImageTurn(cut, dest) && ImageTurn(full, dest) && TagHonest(disk, dest)
    requires !cut.retire && !full.retire && Finishes(AfterTurn(disk, cut), full)
    ensures !Serves(AfterTurn(AfterTurn(disk, cut), full), dest, Pinned(full)) <==>
            && Publishes(disk, cut) && !Records(disk, cut) && Pinned(cut) != Pinned(full)
            && TagMatches(disk, dest, Pinned(full)) && dest + ".digest" !in disk
  {
    var mid := AfterTurn(disk, cut);
    TurnLinks(disk, cut, dest);
    TurnLinks(mid, full, dest);
    assert TagAgrees(disk, dest, Pinned(full));
    if Records(disk, cut) {
      TagReadsBack(Pinned(cut));
    }
  }

  /** The cut falls there exactly if the image's tasks begin with two changes left. */
  lemma CutBetween(h: Host, e: Entry)
    requires NeedsExport(h.disk, e) && Unreported(h.log, e)
    ensures var log, image := ImagePublish(h, e).log, OrEmpty(e.image);
            Publish(e.dest, image) in log && Record(e.dest, image) !in log <==> h.budget == 2
  {
  }

  /** An interruption followed by a run to its end under the same pin always serves that pin. */
  lemma InterruptionRepaired(disk: Disk, cut: Turn, full: Turn, dest: string)
    requires ImageTurn(cut, dest) && ImageTurn(full, dest) && !full.retire
    requires Pinned(cut) == Pinned(full) && TagHonest(disk, dest)
    requires Finishes(AfterTurn(disk, cut), full)
    ensures var after := AfterTurn(AfterTurn(disk, cut), full);
            Serves(after, dest, Pinned(full)) && TagMatches(after, dest, Pinned(full))
  {
    TurnLinks(disk, cut, dest);
    TurnLinks(AfterTurn(disk, cut), full, dest);
    assert TagAgrees(disk, dest, Pinned(full));
    HonestStep(disk, cut, dest, Pinned(full));
  }

  // ----- Re-pins after finished runs -----

  /** A turn keeps the tag honest for its own pin, wherever it is cut off. */
  lemma HonestStep(disk: Disk, t: Turn, dest: string, image: string)
    requires ImageTurn(t, dest) && TagAgrees(disk, dest, image) && (Skips(disk, t) || Pinned(t) == image)
    ensures TagAgrees(AfterTurn(disk, t), dest, image)
  {
    TurnLinks(disk, t, dest);
  }

  /** Finished or retired, it makes the tag honest for every image. */
  lemma SettledStep(disk: Disk, t: Turn, dest: string)
    requires ImageTurn(t, dest) && (t.retire || (Finishes(disk, t) && TagAgrees(disk, dest, Pinned(t))))
    ensures TagHonest(AfterTurn(disk, t), dest)
  {
    TurnLinks(disk, t, dest);
    if !t.retire {
      var after := AfterTurn(disk, t);
      TagReadsBack(Pinned(t));
      assert TagMatches(after, dest, Pinned(t)) && Serves(after, dest, Pinned(t));
    }
  }

  /** No export is left half-way: the last turn retired the image, or staged it to the end, or skipped it when
      none was left half-way before. */
  ghost predicate Settled(disk: Disk, turns: seq<Turn>) {
    turns != [] ==>
      var init, t := turns[..|turns| - 1], turns[|turns| - 1];
      t.retire || Finishes(After(disk, init), t) || (Skips(After(disk, init), t) && Settled(disk, init))
  }

  /** The image of the last turn that did not skip. */
  ghost function Worked(disk: Disk, turns: seq<Turn>): string {
    if turns == [] then ""
    else
      var init, t := turns[..|turns| - 1], turns[|turns| - 1];
      if Skips(After(disk, init), t) && !t.retire then Worked(disk, init) else Pinned(t)
  }

  /** A turn that stages begins settled, or with the pin that was left half-way. */
  ghost predicate Steady(disk: Disk, turns: seq<Turn>) {
    turns != [] ==>
      var init, t := turns[..|turns| - 1], turns[|turns| - 1];
      Steady(disk, init) &&
      (t.retire || Skips(After(disk, init), t) || Settled(disk, init) || Pinned(t) == Worked(disk, init))
  }

  /** Over any re-pins, rollbacks and skipped runs included, and any interruptions that are finished under the same
      pin before another is staged, the tag file is honest for every image; while an export is left half-way, for
      the image of that export. */
  lemma {:induction false} TagSpeaksForTarball(disk: Disk, turns: seq<Turn>, dest: string)
    requires ImageHistory(turns, dest) && TagHonest(disk, dest) && Steady(disk, turns)
    ensures if Settled(disk, turns) then TagHonest(After(disk, turns), dest)
            else TagAgrees(After(disk, turns), dest, Worked(disk, turns))
  {
    if turns != [] {
      var init, t := turns[..|turns| - 1], turns[|turns| - 1];
      var before := After(disk, init);
      assert t in turns;
      TagSpeaksForTarball(disk, init, dest);
      if t.retire || Finishes(before, t) {
        SettledStep(before, t, dest);
      } else if Skips(before, t) {
        if Settled(disk, init) {
          forall image ensures TagAgrees(After(disk, turns), dest, image) {
            HonestStep(before, t, dest, image);
          }
        } else {
          HonestStep(before, t, dest, Worked(disk, init));
        }
      } else {
        HonestStep(before, t, dest, Pinned(t));
      }
    }
  }

  /** Completed runs are always settled, whatever they pin and whichever of them skip. */
  lemma {:induction false} CompletedRunsSettle(disk: Disk, turns: seq<Turn>)
    requires forall i | 0 <= i < |turns| ::
               turns[i].retire || Finishes(After(disk, turns[..i]), turns[i]) ||
               Skips(After(disk, turns[..i]), turns[i])
    ensures Settled(disk, turns) && Steady(disk, turns)
  {
    if turns != [] {
      var init := turns[..|turns| - 1];
      assert forall i | 0 <= i < |init| :: init[..i] == turns[..i];
      CompletedRunsSettle(disk, init);
    }
  }
}
