/** What one complete run of the staging role guarantees, and the run after it. */
module StagingGuarantees {
  import opened Wrappers
  import opened Staging
  import opened StagingSteps
  import opened StagingNames

  // ----- Which manifests are accepted -----

  /** One incomplete entry, or the role disabled, and nothing is done at all. */
  lemma RejectedDoesNothing(h: Host, cfg: Config, e: Entry)
    requires !cfg.enabled ||
             (e in cfg.manifest &&
              (|| (e.retention != "bootstrap" && e.retention != "transit")
               || (e.kind == File && (e.url == None || e.url == Some("")))
               || (e.kind != File && (e.image == None || e.image == Some("")))
               || (e.kind != Mirror && (|e.dest| < 2 || e.dest[0] == '/' || e.dest[|e.dest| - 1] == '/'))))
    ensures Stage(h, cfg) == h
  {
    hide Fetched, Published, WantedFiles;
  }

  /** A manifest of entries with their source, a relative path and one of the two retentions is accepted. */
  lemma PlainManifestAccepted(cfg: Config)
    requires cfg.enabled
    requires forall e | e in cfg.manifest ::
               && (e.retention == "bootstrap" || e.retention == "transit")
               && (e.kind == File ==> e.url.Some? && e.url.value != "")
               && (e.kind != File ==> e.image.Some? && e.image.value != "")
               && (e.kind != Mirror ==>
                     |e.dest| >= 2 && e.dest[0] != '/' && e.dest[|e.dest| - 1] != '/' && '\0' !in e.dest)
    ensures Accepts(cfg)
  {
    forall e | e in cfg.manifest ensures Complete(e) {
    }
  }

  // ----- Re-pins -----

  /** A completed run of a manifest whose file entry is not published, on a disk that holds a marker of an old source
      for it and no other, fetches the new source exactly if the two tokens differ. */
  lemma RepinFetchedIff(h: Host, cfg: Config, e: Entry, was: string)
    requires Completes(h, cfg) && h.log == [] && Tidy(cfg) && e in Local(cfg.manifest) && e.kind == File
    requires e.name !in cfg.publishedNames && e.url.Some?
    requires e.dest + ".published." + Token(was) in h.disk
    requires forall p | p in h.disk && e.dest + ".published." <= p :: p == e.dest + ".published." + Token(was)
    ensures Fetch(e.dest, e.url.value) in Stage(h, cfg).log <==> Token(e.url.value) != Token(was)
    ensures Token(e.url.value) != Token(was) ==>
              HasBody(Stage(h, cfg).disk, e.dest, e.url.value) && Marker(e) in Stage(h, cfg).disk
  {
    var prefix := e.dest + ".published.";
    assert (prefix + Token(was))[|prefix|..] == Token(was) && Marker(e)[|prefix|..] == Token(e.url.value);
    MarkerName(e.dest, e.url.value);
    if Marker(e) in h.disk {
      ExcludedUntouched(h, cfg, e, e.dest);
      assert About(Fetch(e.dest, e.url.value), e.dest);
    } else {
      FileStaged(h, cfg, e);
    }
  }

  /** In particular it fetches a bumped source, whatever marker the old one left. */
  lemma BumpIsFetched(h: Host, cfg: Config, e: Entry, before: string, x: string, y: string, after: string)
    requires Completes(h, cfg) && h.log == [] && Tidy(cfg) && e in Local(cfg.manifest) && e.kind == File
    requires e.name !in cfg.publishedNames && e.url == Some(before + y + after)
    requires AllKept(x) && AllKept(y) && x != y
    requires forall p | p in h.disk && e.dest + ".published." <= p ::
               p == e.dest + ".published." + Token(before + x + after)
    ensures HasBody(Stage(h, cfg).disk, e.dest, before + y + after)
  {
    BumpedToken(before, x, y, after);
    var was, prefix := before + x + after, e.dest + ".published.";
    assert (prefix + Token(was))[|prefix|..] == Token(was) && Marker(e)[|prefix|..] == Token(e.url.value);
    MarkerName(e.dest, e.url.value);
    FileStaged(h, cfg, e);
  }

  // ----- A failed download -----

  /** When one wanted file cannot be fetched, the run ends after the downloads: no marker appears and no image is
      touched. */
  lemma FailedDownloadEndsRun(h: Host, cfg: Config, bad: Entry, e: Entry, p: string)
    requires Accepts(cfg) && Tidy(cfg) && e in Local(cfg.manifest) && p in Outputs(e) && p != e.dest
    requires bad in Local(cfg.manifest) && bad.kind == File && OrEmpty(bad.url) in cfg.unreachable
    requires bad.name !in cfg.publishedNames && Marker(bad) !in h.disk
    ensures Same(h.disk, Stage(h, cfg).disk, p)
    ensures e.kind == Image ==> Same(h.disk, Stage(h, cfg).disk, e.dest)
  {
    WantedIff(h.disk, cfg, bad);
    assert bad in WantedFiles(h.disk, cfg);
    StageIsPhases(h, cfg);
    FetchedApart(h, cfg, e, p);
    if e.kind == Image {
      ImageApart(h.disk, cfg, e, e.dest);
      FilesQuiet(h, cfg, e.dest);
    }
  }

  /** The other wanted files are fetched all the same, unless the run is cut off. */
  lemma OthersStillFetched(h: Host, cfg: Config, e: Entry)
    requires Accepts(cfg) && Tidy(cfg) && e in Local(cfg.manifest) && e.kind == File
    requires e.name !in cfg.publishedNames && Marker(e) !in h.disk && OrEmpty(e.url) !in cfg.unreachable
    requires Stage(h, cfg).budget > 0
    ensures HasBody(Stage(h, cfg).disk, e.dest, OrEmpty(e.url))
  {
    WantedIff(h.disk, cfg, e);
    assert e in WantedFiles(h.disk, cfg);
    StageIsPhases(h, cfg);
    FileDest(h, cfg, e);
  }

  /** The downloads leave everything but destinations alone. */
  lemma FetchedApart(h: Host, cfg: Config, e: Entry, p: string)
    requires Accepts(cfg) && Tidy(cfg) && e in Local(cfg.manifest) && p in Outputs(e) && p != e.dest
    ensures Same(h.disk, Phases(h, cfg)[2].disk, p)
  {
    Apart(h.disk, cfg, e, p);
    DeletesFrame(h, Matching(h.disk, ".published"), p);
    DownloadsFrame(Phases(h, cfg)[1], WantedFiles(h.disk, cfg), cfg.unreachable, p);
  }

  // ----- Legacy files -----

  lemma {:induction false} DeletesAll(h: Host, paths: seq<string>, p: string)
    requires p in paths && Deletes(h, paths).budget > 0
    ensures p !in Deletes(h, paths).disk
  {
    var init := paths[..|paths| - 1];
    assert paths == init + [paths[|paths| - 1]];
    if p in init {
      DeletesAll(h, init, p);
    }
  }

  /** No staged entry owns a path named like a legacy file. */
  lemma LegacyForeign(disk: Disk, cfg: Config, p: string)
    requires Tidy(cfg) && Accepts(cfg) && IsLegacyName(p)
    ensures forall f | f in WantedFiles(disk, cfg) :: f.dest != p && MarkerPath(f.dest, OrEmpty(f.url)) != p
    ensures forall f | f in WantedImages(disk, cfg) :: !Writes(f, p)
  {
    forall f | f in WantedFiles(disk, cfg) ensures f.dest != p && MarkerPath(f.dest, OrEmpty(f.url)) != p {
      MarkersAgree(f);
      assert f.dest in Outputs(f) && Marker(f) in Outputs(f);
    }
    forall f | f in WantedImages(disk, cfg) ensures !Writes(f, p) {
      assert f.dest in Outputs(f) && TagFile(f) in Outputs(f) && DigestFile(f) in Outputs(f);
    }
  }

  /** A run to its end leaves no first-generation marker and no checksum sidecar under the root. */
  lemma NoLegacyLeft(h: Host, cfg: Config, stem: string)
    requires Completes(h, cfg) && Tidy(cfg)
    ensures stem + ".published" !in Stage(h, cfg).disk && stem + ".sha256" !in Stage(h, cfg).disk
  {
    LegacyNames(stem + ".published");
    LegacyNames(stem + ".sha256");
    LegacyGone(h, cfg, stem + ".published");
    LegacyGone(h, cfg, stem + ".sha256");
  }

  lemma LegacyGone(h: Host, cfg: Config, p: string)
    requires Completes(h, cfg) && Tidy(cfg) && IsLegacyName(p)
    ensures p !in Stage(h, cfg).disk
  {
    var ph := Phases(h, cfg);
    StageIsPhases(h, cfg);
    LegacyForeign(h.disk, cfg, p);
    DeletesFrame(h, Matching(h.disk, ".published"), p);
    if p in Matching(h.disk, ".published") {
      DeletesAll(h, Matching(h.disk, ".published"), p);
    }
    DownloadsFrame(ph[1], WantedFiles(h.disk, cfg), cfg.unreachable, p);
    MarksFrame(ph[2], WantedFiles(h.disk, cfg), p);
    ImagesFrame(ph[3], WantedImages(h.disk, cfg), p);
    DeletesFrame(ph[4], Matching(ph[4].disk, ".sha256"), p);
    if p in Matching(ph[4].disk, ".sha256") {
      DeletesAll(ph[4], Matching(ph[4].disk, ".sha256"), p);
    }
  }

  // ----- Idempotence and the validator -----

  ghost predicate TidyImages(cfg: Config) {
    forall e | e in Local(cfg.manifest) && e.kind == Image :: NoEdgeSpace(OrEmpty(e.image))
  }

  /** After a run to its end, every local entry is published, marked, or an image in its published state. */
  lemma EntryDone(h: Host, cfg: Config, e: Entry)
    requires Completes(h, cfg) && h.log == [] && Tidy(cfg) && TidyImages(cfg) && e in Local(cfg.manifest)
    ensures var after := Stage(h, cfg).disk;
            || e.name in cfg.publishedNames || Marker(e) in after
            || (e.kind == Image && !NeedsExport(after, e))
    ensures e.name !in cfg.publishedNames && Marker(e) !in h.disk ==> e.dest in Stage(h, cfg).disk
  {
    if e.name in cfg.publishedNames || Marker(e) in h.disk {
      ExcludedUntouched(h, cfg, e, Marker(e));
    } else if e.kind == File {
      FileStaged(h, cfg, e);
    } else {
      ImageStaged(h, cfg, e);
    }
  }

  /** What the phase validator asserts of each entry, its body or its marker, holds after a run to its end
      exactly if the entry is not one the caller calls published, or one of the two was there before. */
  lemma ValidatorSatisfied(h: Host, cfg: Config, e: Entry)
    requires Completes(h, cfg) && h.log == [] && Tidy(cfg) && TidyImages(cfg) && e in Local(cfg.manifest)
    ensures e.dest in Stage(h, cfg).disk || Marker(e) in Stage(h, cfg).disk <==>
            e.name !in cfg.publishedNames || e.dest in h.disk || Marker(e) in h.disk
  {
    if e.name in cfg.publishedNames || Marker(e) in h.disk {
      ExcludedUntouched(h, cfg, e, Marker(e));
      ExcludedUntouched(h, cfg, e, e.dest);
    } else {
      EntryDone(h, cfg, e);
    }
  }

  /** An image that needs no export reaches the image tasks as it was. */
  lemma StillPublished(h: Host, cfg: Config, e: Entry)
    requires Accepts(cfg) && Tidy(cfg) && e in Local(cfg.manifest) && e.kind == Image && !NeedsExport(h.disk, e)
    ensures !NeedsExport(Phases(h, cfg)[3].disk, e)
  {
    ImageQuiet(h, cfg, e);
  }

  lemma {:induction false} NothingToPublish(h: Host, images: seq<Entry>)
    requires forall e | e in images :: !NeedsExport(h.disk, e)
    ensures Images(h, images) == h
  {
    if images != [] {
      assert images[|images| - 1] in images;
      NothingToPublish(h, images[..|images| - 1]);
    }
  }

  lemma EmptyOrMember(entries: seq<Entry>)
    ensures entries == [] || exists e :: e in entries
  {
    if entries != [] {
      assert entries[0] in entries;
    }
  }

  /** A second run of the same manifest, however far it gets, downloads and exports nothing. */
  lemma SecondRunIdle(h: Host, cfg: Config, budget: nat)
    requires Completes(h, cfg) && h.log == [] && Tidy(cfg) && TidyImages(cfg)
    ensures var again := Stage(h, cfg).(budget := budget);
            Stage(again, cfg).log == again.log
  {
    var again := Stage(h, cfg).(budget := budget);
    var ph := Phases(again, cfg);
    var files, images := WantedFiles(again.disk, cfg), WantedImages(again.disk, cfg);
    StageIsPhases(again, cfg);
    forall e | e in Local(cfg.manifest) ensures e !in files && (e in images ==> !NeedsExport(again.disk, e)) {
      EntryDone(h, cfg, e);
      WantedIff(again.disk, cfg, e);
    }
    EmptyOrMember(files);
    assert ph[3] == ph[2] == ph[1];
    DeletesFrame(again, Matching(again.disk, ".published"), "");
    forall e | e in images ensures !NeedsExport(ph[3].disk, e) {
      StillPublished(again, cfg, e);
    }
    NothingToPublish(ph[3], images);
    DeletesFrame(ph[4], Matching(ph[4].disk, ".sha256"), "");
  }
}
