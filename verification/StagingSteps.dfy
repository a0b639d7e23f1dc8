/** What one run of the staging role does to one path, cut off or not. */
module StagingSteps {
  import opened Staging

  /** `p` holds the same in both, or is absent from both. */
  ghost predicate Same(a: Disk, b: Disk, p: string) {
    (p in a <==> p in b) && (p in a ==> a[p] == b[p])
  }

  predicate About(a: Action, dest: string) {
    !a.Export? && a.dest == dest
  }

  /** Both logs report the same about `dest`. */
  ghost predicate SameLog(a: seq<Action>, b: seq<Action>, dest: string) {
    forall x | About(x, dest) :: x in a <==> x in b
  }

  // ----- Each phase leaves other paths alone, and does nothing once the run is cut off -----

  lemma {:induction false} DeletesFrame(h: Host, paths: seq<string>, p: string)
    ensures p !in paths ==> Same(h.disk, Deletes(h, paths).disk, p)
    ensures Deletes(h, paths).disk.Keys <= h.disk.Keys
    ensures Deletes(h, paths).budget <= h.budget && Deletes(h, paths).log == h.log
  {
    if paths != [] {
      DeletesFrame(h, paths[..|paths| - 1], p);
    }
  }

  lemma {:induction false} DownloadsFrame(h: Host, files: seq<Entry>, unreachable: set<string>, p: string)
    ensures (forall f | f in files :: f.dest != p) ==>
              Same(h.disk, Downloads(h, files, unreachable).disk, p) &&
              SameLog(h.log, Downloads(h, files, unreachable).log, p)
    ensures Downloads(h, files, unreachable).budget <= h.budget
  {
    if files != [] {
      DownloadsFrame(h, files[..|files| - 1], unreachable, p);
      assert files[|files| - 1] in files;
    }
  }

  lemma {:induction false} MarksFrame(h: Host, files: seq<Entry>, p: string)
    ensures (forall f | f in files :: MarkerPath(f.dest, OrEmpty(f.url)) != p) ==>
              Same(h.disk, Marks(h, files).disk, p)
    ensures Marks(h, files).budget <= h.budget && Marks(h, files).log == h.log
    ensures h.budget == 0 ==> Marks(h, files) == h
  {
    if files != [] {
      MarksFrame(h, files[..|files| - 1], p);
      assert files[|files| - 1] in files;
    }
  }

  ghost predicate Writes(e: Entry, p: string) {
    p == e.dest || p == TagFile(e) || p == DigestFile(e)
  }

  lemma {:induction false} ImagesFrame(h: Host, images: seq<Entry>, p: string)
    ensures (forall e | e in images :: !Writes(e, p)) ==>
              Same(h.disk, Images(h, images).disk, p) && SameLog(h.log, Images(h, images).log, p)
    ensures Images(h, images).budget <= h.budget
    ensures h.budget == 0 ==> Images(h, images) == h
  {
    if images != [] {
      var init, last := images[..|images| - 1], images[|images| - 1];
      ImagesFrame(h, init, p);
      ImageFrame(Images(h, init), last, p);
      assert last in images;
    }
  }

  /** One image's tasks do not touch, or report on, a path that is not theirs. */
  lemma ImageFrame(h: Host, e: Entry, p: string)
    ensures var after := ImagePublish(h, e);
            && after.budget <= h.budget && (h.budget == 0 ==> after == h)
            && (!Writes(e, p) ==> Same(h.disk, after.disk, p) && SameLog(h.log, after.log, p))
  {
  }

  // ----- Each phase does its work on the paths it owns -----

  ghost predicate HasBody(disk: Disk, dest: string, source: string) {
    dest in disk && disk[dest] == Body(source)
  }

  /** `after` has this body if its log reports the fetch, and otherwise what was there before. */
  ghost predicate FetchedOrSame(before: Host, after: Host, dest: string, source: string) {
    Fetch(dest, source) !in before.log ==>
      if Fetch(dest, source) in after.log then HasBody(after.disk, dest, source)
      else Same(before.disk, after.disk, dest)
  }

  /** A download writes its body or nothing, and writes it unless cut off or unreachable. */
  lemma {:induction false} DownloadsEffect(h: Host, files: seq<Entry>, unreachable: set<string>, e: Entry)
    requires e in files && forall f | f in files && f != e :: f.dest != e.dest
    ensures var after, source := Downloads(h, files, unreachable), OrEmpty(e.url);
            && (Same(h.disk, after.disk, e.dest) || HasBody(after.disk, e.dest, source))
            && FetchedOrSame(h, after, e.dest, source)
            && (after.budget > 0 && source !in unreachable ==>
                  HasBody(after.disk, e.dest, source) && Fetch(e.dest, source) in after.log)
  {
    var init, last := files[..|files| - 1], files[|files| - 1];
    assert files == init + [last];
    if e in init {
      DownloadsEffect(h, init, unreachable, e);
    } else {
      DownloadsFrame(h, init, unreachable, e.dest);
    }
  }

  lemma {:induction false} MarksEffect(h: Host, files: seq<Entry>, e: Entry)
    requires e in files
    ensures Marks(h, files).budget > 0 ==> MarkerPath(e.dest, OrEmpty(e.url)) in Marks(h, files).disk
    ensures OnlyMarks(h.disk, Marks(h, files).disk)
  {
    var init, last := files[..|files| - 1], files[|files| - 1];
    assert files == init + [last];
    if e in init {
      MarksEffect(h, init, e);
    } else {
      MarksKeep(h, init);
    }
  }

  /** Everything is as it was, and what is new is empty. */
  ghost predicate OnlyMarks(before: Disk, after: Disk) {
    && (forall p | p in before :: p in after && after[p] == before[p])
    && (forall p | p in after && p !in before :: after[p] == Text(""))
  }

  lemma {:induction false} MarksKeep(h: Host, files: seq<Entry>)
    ensures OnlyMarks(h.disk, Marks(h, files).disk)
  {
    if files != [] {
      MarksKeep(h, files[..|files| - 1]);
    }
  }

  // ----- Manifests whose entries do not get in each other's way -----

  /** The paths an entry's tasks read or write. */
  function Outputs(e: Entry): set<string> {
    if e.kind == File then {e.dest, Marker(e)} else {e.dest, Marker(e), TagFile(e), DigestFile(e)}
  }

  predicate IsLegacyName(p: string) {
    EndsWith(p, ".published") || EndsWith(p, ".sha256")
  }

  /** Local entries have distinct names and disjoint outputs, none of them named like a legacy file. */
  ghost predicate Tidy(cfg: Config) {
    && (forall e, f | e in Local(cfg.manifest) && f in Local(cfg.manifest) && e != f ::
          e.name != f.name && Outputs(e) !! Outputs(f))
    && (forall e, p | e in Local(cfg.manifest) && p in Outputs(e) :: !IsLegacyName(p))
  }

  /** The three names beside a destination differ from it and from each other. */
  lemma OwnPathsDiffer(e: Entry)
    ensures e.dest != Marker(e) && e.dest != TagFile(e) && e.dest != DigestFile(e)
    ensures Marker(e) != TagFile(e) && Marker(e) != DigestFile(e) && TagFile(e) != DigestFile(e)
  {
    assert |Marker(e)| >= |e.dest| + 11 && |TagFile(e)| == |e.dest| + 4 && |DigestFile(e)| == |e.dest| + 7;
  }

  /** The writer and the lookup name a file's marker alike. */
  lemma MarkersAgree(e: Entry)
    requires Complete(e) && e.kind == File
    ensures MarkerPath(e.dest, OrEmpty(e.url)) == Marker(e)
  {
  }

  /** An entry is staged exactly when it is not published and holds no marker for its current source. */
  lemma WantedIff(disk: Disk, cfg: Config, e: Entry)
    requires Tidy(cfg) && e in Local(cfg.manifest)
    ensures e.name in Excluded(disk, cfg) <==> e.name in cfg.publishedNames || Marker(e) in disk
  {
    if f :| f in Local(cfg.manifest) && Marker(f) in disk && f.name == e.name {
      assert f == e;
    }
  }

  /** A path of one entry is not written for another. */
  lemma Apart(disk: Disk, cfg: Config, e: Entry, p: string)
    requires Tidy(cfg) && Accepts(cfg) && e in Local(cfg.manifest) && p in Outputs(e)
    ensures !IsLegacyName(p)
    ensures forall f | f in WantedFiles(disk, cfg) && f != e :: f.dest != p && MarkerPath(f.dest, OrEmpty(f.url)) != p
    ensures forall f | f in WantedImages(disk, cfg) && f != e :: !Writes(f, p)
  {
    forall f | f in WantedFiles(disk, cfg) && f != e ensures f.dest != p && MarkerPath(f.dest, OrEmpty(f.url)) != p {
      MarkersAgree(f);
      assert f.dest in Outputs(f) && Marker(f) in Outputs(f);
    }
    forall f | f in WantedImages(disk, cfg) && f != e ensures !Writes(f, p) {
      assert f.dest in Outputs(f) && TagFile(f) in Outputs(f) && DigestFile(f) in Outputs(f);
    }
  }

  // ----- One run, seen from one path -----

  /** The host at the boundaries between tasks. */
  ghost function Phases(h: Host, cfg: Config): seq<Host> {
    var h1 := Deletes(h, Matching(h.disk, ".published"));
    var h2 := Downloads(h1, WantedFiles(h.disk, cfg), cfg.unreachable);
    var h3 := Marks(h2, WantedFiles(h.disk, cfg));
    var h4 := Images(h3, WantedImages(h.disk, cfg));
    [h, h1, h2, h3, h4, Deletes(h4, Matching(h4.disk, ".sha256"))]
  }

  lemma StageIsPhases(h: Host, cfg: Config)
    requires Accepts(cfg)
    ensures Stage(h, cfg) == Phases(h, cfg)[if AllReachable(cfg, WantedFiles(h.disk, cfg)) then 5 else 2]
    ensures var ph := Phases(h, cfg);
            ph[5].budget <= ph[4].budget <= ph[3].budget <= ph[2].budget <= ph[1].budget <= ph[0].budget
  {
    var ph := Phases(h, cfg);
    DeletesFrame(h, Matching(h.disk, ".published"), "");
    DownloadsFrame(ph[1], WantedFiles(h.disk, cfg), cfg.unreachable, "");
    MarksFrame(ph[2], WantedFiles(h.disk, cfg), "");
    ImagesFrame(ph[3], WantedImages(h.disk, cfg), "");
    DeletesFrame(ph[4], Matching(ph[4].disk, ".sha256"), "");
  }

  /** Up to the images, and after them, such a path does not change. */
  lemma FilesQuiet(h: Host, cfg: Config, p: string)
    requires !IsLegacyName(p)
    requires forall f | f in WantedFiles(h.disk, cfg) :: f.dest != p && MarkerPath(f.dest, OrEmpty(f.url)) != p
    ensures var ph := Phases(h, cfg);
            && Same(h.disk, ph[2].disk, p) && Same(h.disk, ph[3].disk, p) && Same(ph[4].disk, ph[5].disk, p)
            && SameLog(h.log, ph[2].log, p) && ph[3].log == ph[2].log && ph[5].log == ph[4].log
  {
    var ph := Phases(h, cfg);
    DeletesFrame(h, Matching(h.disk, ".published"), p);
    DownloadsFrame(ph[1], WantedFiles(h.disk, cfg), cfg.unreachable, p);
    MarksFrame(ph[2], WantedFiles(h.disk, cfg), p);
    DeletesFrame(ph[4], Matching(ph[4].disk, ".sha256"), p);
  }

  /** A path that no staged entry owns, and that is not named like a legacy file, is left alone. */
  lemma StageFrame(h: Host, cfg: Config, p: string)
    requires Accepts(cfg) && !IsLegacyName(p)
    requires forall f | f in WantedFiles(h.disk, cfg) :: f.dest != p && MarkerPath(f.dest, OrEmpty(f.url)) != p
    requires forall f | f in WantedImages(h.disk, cfg) :: !Writes(f, p)
    ensures Same(h.disk, Stage(h, cfg).disk, p) && SameLog(h.log, Stage(h, cfg).log, p)
  {
    var ph := Phases(h, cfg);
    StageIsPhases(h, cfg);
    FilesQuiet(h, cfg, p);
    ImagesFrame(ph[3], WantedImages(h.disk, cfg), p);
  }

  /** An entry that is published or marked keeps its files as they are. */
  lemma ExcludedUntouched(h: Host, cfg: Config, e: Entry, p: string)
    requires Accepts(cfg) && Tidy(cfg) && e in Local(cfg.manifest) && p in Outputs(e)
    requires e.name in cfg.publishedNames || Marker(e) in h.disk
    ensures Same(h.disk, Stage(h, cfg).disk, p) && SameLog(h.log, Stage(h, cfg).log, p)
  {
    WantedIff(h.disk, cfg, e);
    Apart(h.disk, cfg, e, p);
    StageFrame(h, cfg, p);
  }

  /** A file that is staged: its marker appears only over a body from its own source, in a run that reports the
      fetch, and both are there when the run gets to its end. */
  lemma FileStaged(h: Host, cfg: Config, e: Entry)
    requires Accepts(cfg) && Tidy(cfg) && e in Local(cfg.manifest) && e.kind == File
    requires e.name !in cfg.publishedNames && Marker(e) !in h.disk
    ensures var after, source := Stage(h, cfg), OrEmpty(e.url);
            && (Marker(e) in after.disk ==>
                  && after.disk[Marker(e)] == Text("")
                  && HasBody(after.disk, e.dest, source) && Fetch(e.dest, source) in after.log)
            && (Same(h.disk, after.disk, e.dest) || HasBody(after.disk, e.dest, source))
            && FetchedOrSame(h, after, e.dest, source)
            && (Completes(h, cfg) ==> Marker(e) in after.disk)
  {
    var ph, files := Phases(h, cfg), WantedFiles(h.disk, cfg);
    StageIsPhases(h, cfg);
    WantedIff(h.disk, cfg, e);
    assert e in files;
    FileDest(h, cfg, e);
    FileMark(h, cfg, e);
  }

  /** Nothing else in the run touches a staged file's body or marker. */
  lemma FileApart(disk: Disk, cfg: Config, e: Entry)
    requires Accepts(cfg) && Tidy(cfg) && e in WantedFiles(disk, cfg)
    ensures !IsLegacyName(e.dest) && !IsLegacyName(Marker(e))
    ensures MarkerPath(e.dest, OrEmpty(e.url)) == Marker(e)
    ensures forall f | f in WantedFiles(disk, cfg) ::
              (f != e ==> f.dest != e.dest) && MarkerPath(f.dest, OrEmpty(f.url)) != e.dest && f.dest != Marker(e)
    ensures forall f | f in WantedImages(disk, cfg) :: !Writes(f, e.dest) && !Writes(f, Marker(e))
  {
    Apart(disk, cfg, e, e.dest);
    Apart(disk, cfg, e, Marker(e));
    MarkersAgree(e);
    OwnPathsDiffer(e);
  }

  lemma FileDest(h: Host, cfg: Config, e: Entry)
    requires Accepts(cfg) && Tidy(cfg) && e in WantedFiles(h.disk, cfg)
    ensures var ph, source := Phases(h, cfg), OrEmpty(e.url);
            && (Same(h.disk, ph[2].disk, e.dest) || HasBody(ph[2].disk, e.dest, source))
            && FetchedOrSame(h, ph[2], e.dest, source)
            && (ph[2].budget > 0 && source !in cfg.unreachable ==>
                  HasBody(ph[2].disk, e.dest, source) && Fetch(e.dest, source) in ph[2].log)
            && Same(ph[2].disk, ph[5].disk, e.dest) && SameLog(ph[2].log, ph[5].log, e.dest)
  {
    var ph, files := Phases(h, cfg), WantedFiles(h.disk, cfg);
    FileApart(h.disk, cfg, e);
    DeletesFrame(h, Matching(h.disk, ".published"), e.dest);
    DownloadsEffect(ph[1], files, cfg.unreachable, e);
    MarksFrame(ph[2], files, e.dest);
    ImagesFrame(ph[3], WantedImages(h.disk, cfg), e.dest);
    DeletesFrame(ph[4], Matching(ph[4].disk, ".sha256"), e.dest);
  }

  lemma FileMark(h: Host, cfg: Config, e: Entry)
    requires Accepts(cfg) && Tidy(cfg) && e in WantedFiles(h.disk, cfg) && Marker(e) !in h.disk
    ensures var ph := Phases(h, cfg);
            && Marker(e) !in ph[2].disk
            && (ph[3].budget > 0 ==> Marker(e) in ph[3].disk)
            && (ph[2].budget == 0 ==> Marker(e) !in ph[3].disk)
            && (Marker(e) in ph[3].disk ==> ph[3].disk[Marker(e)] == Text(""))
            && Same(ph[3].disk, ph[5].disk, Marker(e))
  {
    var ph, files := Phases(h, cfg), WantedFiles(h.disk, cfg);
    FileApart(h.disk, cfg, e);
    DeletesFrame(h, Matching(h.disk, ".published"), Marker(e));
    DownloadsFrame(ph[1], files, cfg.unreachable, Marker(e));
    MarksFrame(ph[2], files, Marker(e));
    MarksEffect(ph[2], files, e);
    ImagesFrame(ph[3], WantedImages(h.disk, cfg), Marker(e));
    DeletesFrame(ph[4], Matching(ph[4].disk, ".sha256"), Marker(e));
  }

  // ----- Images -----

  /** The tarball is the pinned image, if the tag file says it is. */
  ghost predicate TagAgrees(disk: Disk, dest: string, image: string) {
    dest in disk && TagMatches(disk, dest, image) ==> disk[dest] == Tarball(image)
  }

  ghost predicate NoEdgeSpace(image: string) {
    Trim(image) == image && image != ""
  }

  /** Reading back the tag that was written gives the image, for an image without space at its edges. */
  lemma TagReadsBack(image: string)
    requires NoEdgeSpace(image)
    ensures Trim(image + "\n") == image
  {
    TrimEdges(image);
    TrimLeftKeeps(image + "\n");
    assert (image + "\n")[..|image|] == image;
    TrimRightKeeps(image);
  }

  lemma {:induction false} TrimEdges(s: string)
    requires Trim(s) == s && s != ""
    ensures !IsSpace(s[0]) && !IsSpace(s[|s| - 1])
  {
    TrimLeftShrinks(s);
    TrimRightShrinks(TrimLeft(s));
    TrimLeftShrinks(s[1..]);
    TrimRightShrinks(s[..|s| - 1]);
  }

  lemma {:induction false} TrimLeftShrinks(s: string)
    ensures |TrimLeft(s)| <= |s|
  {
    if s != "" && IsSpace(s[0]) { TrimLeftShrinks(s[1..]); }
  }

  lemma {:induction false} TrimRightShrinks(s: string)
    ensures |TrimRight(s)| <= |s|
  {
    if s != "" && IsSpace(s[|s| - 1]) { TrimRightShrinks(s[..|s| - 1]); }
  }

  lemma TrimLeftKeeps(s: string)
    requires s != "" && !IsSpace(s[0])
    ensures TrimLeft(s) == s
  {
  }

  lemma TrimRightKeeps(s: string)
    requires s != "" && !IsSpace(s[|s| - 1])
    ensures TrimRight(s) == s && TrimRight(s + "\n") == s
  {
    assert (s + "\n")[..|s|] == s && IsSpace('\n');
    assert (s + "\n")[|s + "\n"| - 1] == '\n';
  }

  ghost predicate HasTarball(disk: Disk, dest: string, image: string) {
    dest in disk && disk[dest] == Tarball(image)
  }

  ghost predicate HasTag(disk: Disk, dest: string, image: string) {
    dest + ".tag" in disk && disk[dest + ".tag"] == Text(image + "\n")
  }

  /** No word on the image's tarball or tag yet. */
  ghost predicate Unreported(log: seq<Action>, e: Entry) {
    Publish(e.dest, OrEmpty(e.image)) !in log && Record(e.dest, OrEmpty(e.image)) !in log
  }

  /** What the image tasks may do to an entry's files, told by what they report: the tarball is published only if
      that is needed, the tag is recorded only after it, and left to finish both have happened or were there. */
  ghost predicate ImageLink(before: Host, after: Host, e: Entry, finished: bool) {
    var image := OrEmpty(e.image);
    var published, recorded := Publish(e.dest, image) in after.log, Record(e.dest, image) in after.log;
    && (recorded ==> published) && (published ==> NeedsExport(before.disk, e))
    && (if published then HasTarball(after.disk, e.dest, image) else Same(before.disk, after.disk, e.dest))
    && (if recorded then HasTag(after.disk, e.dest, image) else Same(before.disk, after.disk, TagFile(e)))
    && (DigestFile(e) in after.disk ==> DigestFile(e) in before.disk)
    && (DigestFile(e) in before.disk && DigestFile(e) !in after.disk && NeedsExport(before.disk, e) ==> recorded)
    && (finished ==> (NeedsExport(before.disk, e) ==> recorded) && !NeedsExport(after.disk, e))
  }

  /** One image's tasks, cut off anywhere. */
  lemma PublishStep(h: Host, e: Entry)
    requires NoEdgeSpace(OrEmpty(e.image)) && Unreported(h.log, e)
    ensures ImageLink(h, ImagePublish(h, e), e, ImagePublish(h, e).budget > 0)
  {
    OwnPathsDiffer(e);
    TagReadsBack(OrEmpty(e.image));
  }

  lemma PublishIdle(h: Host, e: Entry)
    requires h.budget == 0 || !NeedsExport(h.disk, e)
    ensures ImagePublish(h, e) == h
  {
  }

  /** The image phase as a whole, seen from one entry. */
  lemma {:induction false} ImagesStep(h: Host, images: seq<Entry>, e: Entry)
    requires e in images && NoEdgeSpace(OrEmpty(e.image)) && Unreported(h.log, e)
    requires forall f | f in images && f != e ::
               !Writes(f, e.dest) && !Writes(f, TagFile(e)) && !Writes(f, DigestFile(e))
    ensures ImageLink(h, Images(h, images), e, Images(h, images).budget > 0)
  {
    var init, last := images[..|images| - 1], images[|images| - 1];
    var before := Images(h, init);
    assert images == init + [last];
    if e in init {
      ImagesStep(h, init, e);
      if last == e {
        PublishIdle(before, e);
      } else {
        EntryFrame(before, last, e);
      }
    } else {
      ImagesFrame(h, init, e.dest);
      ImagesFrame(h, init, TagFile(e));
      ImagesFrame(h, init, DigestFile(e));
      PublishStep(before, e);
    }
  }

  /** An entry's image files, and what is reported on them, are the same in both. */
  ghost predicate ImageSame(a: Host, b: Host, e: Entry) {
    && Same(a.disk, b.disk, e.dest) && Same(a.disk, b.disk, TagFile(e)) && Same(a.disk, b.disk, DigestFile(e))
    && SameLog(a.log, b.log, e.dest)
  }

  lemma EntryFrame(h: Host, f: Entry, e: Entry)
    requires !Writes(f, e.dest) && !Writes(f, TagFile(e)) && !Writes(f, DigestFile(e))
    ensures ImageSame(h, ImagePublish(h, f), e) && ImagePublish(h, f).budget <= h.budget
  {
    ImageFrame(h, f, e.dest);
    ImageFrame(h, f, TagFile(e));
    ImageFrame(h, f, DigestFile(e));
  }

  lemma LinkAround(h: Host, a: Host, b: Host, after: Host, e: Entry, finished: bool)
    requires ImageSame(h, a, e) && ImageLink(a, b, e, finished) && ImageSame(b, after, e)
    ensures ImageLink(h, after, e, finished)
  {
    assert About(Publish(e.dest, OrEmpty(e.image)), e.dest) && About(Record(e.dest, OrEmpty(e.image)), e.dest);
  }

  lemma NothingDone(h: Host, after: Host, e: Entry)
    requires ImageSame(h, after, e) && Unreported(h.log, e)
    ensures ImageLink(h, after, e, false) && Unreported(after.log, e)
  {
    assert About(Publish(e.dest, OrEmpty(e.image)), e.dest) && About(Record(e.dest, OrEmpty(e.image)), e.dest);
  }

  /** One run, seen from an image entry that it stages. */
  lemma ImageStaged(h: Host, cfg: Config, e: Entry)
    requires Accepts(cfg) && Tidy(cfg) && e in Local(cfg.manifest) && e.kind == Image
    requires e.name !in cfg.publishedNames && Marker(e) !in h.disk && NoEdgeSpace(OrEmpty(e.image))
    requires Unreported(h.log, e)
    ensures ImageLink(h, Stage(h, cfg), e, Completes(h, cfg))
  {
    var ph := Phases(h, cfg);
    StageIsPhases(h, cfg);
    WantedIff(h.disk, cfg, e);
    ImageQuiet(h, cfg, e);
    NothingDone(h, ph[2], e);
    if AllReachable(cfg, WantedFiles(h.disk, cfg)) {
      NothingDone(h, ph[3], e);
      ImagesApart(h.disk, cfg, e);
      assert e in WantedImages(h.disk, cfg);
      ImagesStep(ph[3], WantedImages(h.disk, cfg), e);
      LinkAround(h, ph[3], ph[4], ph[5], e, ph[4].budget > 0);
    }
  }

  /** Before and after the image tasks nothing happens to an image's paths. */
  lemma ImageQuiet(h: Host, cfg: Config, e: Entry)
    requires Accepts(cfg) && Tidy(cfg) && e in Local(cfg.manifest) && e.kind == Image
    ensures var ph := Phases(h, cfg);
            ImageSame(h, ph[2], e) && ImageSame(h, ph[3], e) && ImageSame(ph[4], ph[5], e)
  {
    forall p | p == e.dest || p == TagFile(e) || p == DigestFile(e)
      ensures var ph := Phases(h, cfg);
              && Same(h.disk, ph[2].disk, p) && Same(h.disk, ph[3].disk, p) && Same(ph[4].disk, ph[5].disk, p)
              && SameLog(h.log, ph[2].log, p) && ph[3].log == ph[2].log && ph[5].log == ph[4].log {
      ImageApart(h.disk, cfg, e, p);
      FilesQuiet(h, cfg, p);
    }
  }

  lemma ImagesApart(disk: Disk, cfg: Config, e: Entry)
    requires Accepts(cfg) && Tidy(cfg) && e in Local(cfg.manifest) && e.kind == Image
    ensures forall f | f in WantedImages(disk, cfg) && f != e ::
              !Writes(f, e.dest) && !Writes(f, TagFile(e)) && !Writes(f, DigestFile(e))
  {
    Apart(disk, cfg, e, e.dest);
    Apart(disk, cfg, e, TagFile(e));
    Apart(disk, cfg, e, DigestFile(e));
  }

  lemma ImageApart(disk: Disk, cfg: Config, e: Entry, p: string)
    requires Accepts(cfg) && Tidy(cfg) && e in Local(cfg.manifest) && e.kind == Image && p in Outputs(e)
    ensures !IsLegacyName(p)
    ensures forall f | f in WantedFiles(disk, cfg) :: f.dest != p && MarkerPath(f.dest, OrEmpty(f.url)) != p
  {
    Apart(disk, cfg, e, p);
    assert forall f | f in WantedFiles(disk, cfg) :: f != e;
  }
}
