/** Concrete histories in which a staging run ends with the wrong artifact. */
module StagingWitnesses {
  import opened Staging
  import opened StagingSteps
  import opened FileHistories
  import opened ImageHistories

  function Only(e: Entry): Config {
    Config(true, [e], {}, {})
  }

  predicate NoLegacy(disk: Disk) {
    forall p | p in disk :: !IsLegacyName(p)
  }

  lemma EmptyOrSome(paths: seq<string>)
    ensures paths == [] || exists p :: p in paths
  {
    if paths != [] {
      assert paths[0] in paths;
    }
  }

  lemma NothingMatches(disk: Disk)
    requires NoLegacy(disk)
    ensures Matching(disk, ".published") == [] && Matching(disk, ".sha256") == []
  {
    EmptyOrSome(Matching(disk, ".published"));
    EmptyOrSome(Matching(disk, ".sha256"));
  }

  lemma OneWanted(e: Entry, kind: Kind, excluded: set<string>)
    ensures Wanted([e], kind, excluded) == if e.kind == kind && e.name !in excluded then [e] else []
  {
    assert [e][..0] == [];
    assert Wanted([e][..0], kind, excluded) == [];
  }

  lemma OnlyWanted(disk: Disk, e: Entry)
    requires e.kind != Mirror
    ensures WantedFiles(disk, Only(e)) == if e.kind == File && Marker(e) !in disk then [e] else []
    ensures WantedImages(disk, Only(e)) == if e.kind == Image && Marker(e) !in disk then [e] else []
  {
    assert [e][..0] == [];
    assert Local([e][..0]) == [];
    assert Local([e]) == [e];
    OneWanted(e, File, Excluded(disk, Only(e)));
    OneWanted(e, Image, Excluded(disk, Only(e)));
    assert e.name in Excluded(disk, Only(e)) <==> Marker(e) in disk;
  }

  lemma SingleSteps(h: Host, e: Entry)
    ensures Downloads(h, [e], {}) == Download(h, e, {}) && Downloads(h, [], {}) == h
    ensures Marks(h, [e]) == Mark(h, e) && Marks(h, []) == h
    ensures Images(h, [e]) == ImagePublish(h, e) && Images(h, []) == h
  {
    assert [e][..0] == [];
    assert Downloads(h, [e][..0], {}) == h && Marks(h, [e][..0]) == h && Images(h, [e][..0]) == h;
  }

  /** A run without legacy files on a manifest that is reachable. */
  lemma PlainStage(h: Host, cfg: Config, x: Host)
    requires Accepts(cfg) && cfg.unreachable == {} && NoLegacy(h.disk) && NoLegacy(x.disk)
    requires x == Images(Marks(Downloads(h, WantedFiles(h.disk, cfg), {}), WantedFiles(h.disk, cfg)),
                         WantedImages(h.disk, cfg))
    ensures Stage(h, cfg) == x
  {
    NothingMatches(h.disk);
    NothingMatches(x.disk);
    assert Deletes(h, []) == h && Deletes(x, []) == x;
    assert Fetched(h, cfg) == Downloads(h, WantedFiles(h.disk, cfg), {});
    assert Published(h, cfg) == x;
  }

  /** A manifest of one file, not cut off: fetched and marked, unless it is marked already. */
  function Kept(disk: Disk, e: Entry): Disk {
    if Marker(e) in disk then disk else disk[e.dest := Body(Source(e))][Marker(e) := Text("")]
  }

  ghost predicate PlainFile(e: Entry) {
    e.kind == File && Complete(e) && !IsLegacyName(e.dest) && !IsLegacyName(Marker(e))
  }

  /** The phases of such a run, for a file that is not marked. */
  lemma NewFilePhases(h: Host, e: Entry)
    requires PlainFile(e) && NoLegacy(h.disk) && Marker(e) !in h.disk && h.budget > 2
    ensures var x := Images(Marks(Downloads(h, [e], {}), [e]), []);
            x.disk == Kept(h.disk, e) && NoLegacy(x.disk)
  {
    MarkersAgree(e);
    OwnPathsDiffer(e);
    SingleSteps(h, e);
    SingleSteps(Download(h, e, {}), e);
    SingleSteps(Mark(Download(h, e, {}), e), e);
  }

  lemma OneFile(h: Host, e: Entry)
    requires PlainFile(e) && NoLegacy(h.disk) && h.budget > 2
    ensures Stage(h, Only(e)).disk == Kept(h.disk, e) && NoLegacy(Kept(h.disk, e))
  {
    OnlyWanted(h.disk, e);
    var files := if Marker(e) in h.disk then [] else [e];
    var x := Images(Marks(Downloads(h, files, {}), files), []);
    if Marker(e) in h.disk {
      SingleSteps(h, e);
    } else {
      NewFilePhases(h, e);
    }
    PlainStage(h, Only(e), x);
  }

  /** A manifest of one image that holds no marker: its tasks and nothing else. */
  lemma OneImage(h: Host, e: Entry)
    requires e.kind == Image && Complete(e) && Marker(e) !in h.disk
    requires NoLegacy(h.disk) && NoLegacy(ImagePublish(h, e).disk)
    ensures Stage(h, Only(e)) == ImagePublish(h, e)
  {
    OnlyWanted(h.disk, e);
    SingleSteps(h, e);
    PlainStage(h, Only(e), ImagePublish(h, e));
  }

  /** `v`, then `w`, then `v` again. */
  lemma KeptThrice(e: Entry, f: Entry)
    requires e.dest == f.dest && Token(Source(e)) != Token(Source(f))
    ensures var back := Kept(Kept(Kept(map[], e), f), e);
            e.dest in back && back[e.dest] == Body(Source(f)) && Marker(e) in back
  {
    TokensApart(e.dest, Source(e), Source(f));
    OwnPathsDiffer(e);
    OwnPathsDiffer(f);
  }

  /** From an empty root, with a manifest of one file: pin `e`, then `f`, then `e` again, each run to its end.
      The marker for `e` is there and the body is from `f`, whatever the two sources are. */
  lemma FileRollback(e: Entry, f: Entry, one: Disk, two: Disk, back: Disk)
    requires PlainFile(e) && PlainFile(f) && e.dest == f.dest && Token(Source(e)) != Token(Source(f))
    requires one == Stage(Host(map[], 9, []), Only(e)).disk
    requires two == Stage(Host(one, 9, []), Only(f)).disk
    requires back == Stage(Host(two, 9, []), Only(e)).disk
    ensures e.dest in back && back[e.dest] == Body(Source(f)) && Marker(e) in back
  {
    OneFile(Host(map[], 9, []), e);
    OneFile(Host(one, 9, []), f);
    OneFile(Host(two, 9, []), e);
    KeptThrice(e, f);
  }

  /** The same file with one change to go: fetched and not marked. */
  lemma CutFile(h: Host, e: Entry)
    requires PlainFile(e) && NoLegacy(h.disk) && h.budget == 1 && Marker(e) !in h.disk
    ensures var disk := h.disk[e.dest := Body(Source(e))];
            Stage(h, Only(e)).disk == disk && NoLegacy(disk)
  {
    MarkersAgree(e);
    OnlyWanted(h.disk, e);
    var fetched := Download(h, e, {});
    SingleSteps(h, e);
    SingleSteps(fetched, e);
    SingleSteps(Mark(fetched, e), e);
    PlainStage(h, Only(e), fetched);
  }

  lemma KeptAroundCut(e: Entry, f: Entry)
    requires e.dest == f.dest && Token(Source(e)) != Token(Source(f))
    ensures var one := Kept(map[], e);
            var cut := one[f.dest := Body(Source(f))];
            && Marker(f) !in one && Marker(e) in cut && Marker(f) !in cut
            && e.dest in cut && cut[e.dest] == Body(Source(f))
  {
    TokensApart(e.dest, Source(e), Source(f));
    OwnPathsDiffer(e);
    OwnPathsDiffer(f);
  }

  /** The same rollback with the run of `f` cut off after its download: no source was ever marked but `e`, and the
      body beside its marker is from `f`. */
  lemma CutFileRollback(e: Entry, f: Entry, one: Disk, cut: Disk, back: Disk)
    requires PlainFile(e) && PlainFile(f) && e.dest == f.dest && Token(Source(e)) != Token(Source(f))
    requires one == Stage(Host(map[], 9, []), Only(e)).disk
    requires cut == Stage(Host(one, 1, []), Only(f)).disk
    requires back == Stage(Host(cut, 9, []), Only(e)).disk
    ensures e.dest in back && back[e.dest] == Body(Source(f)) && Marker(e) in back && Marker(f) !in back
  {
    hide Stage;
    KeptAroundCut(e, f);
    OneFile(Host(map[], 9, []), e);
    CutFile(Host(one, 1, []), f);
    OneFile(Host(cut, 9, []), e);
  }

  /** The tarball of one image beside the tag of another. */
  function Tarred(e: Entry, built: string, tag: string): Disk {
    map[e.dest := Tarball(built), TagFile(e) := Text(tag + "\n")]
  }

  ghost predicate PlainImage(e: Entry) {
    && e.kind == Image && Complete(e) && NoEdgeSpace(OrEmpty(e.image))
    && !IsLegacyName(e.dest) && !IsLegacyName(TagFile(e))
  }

  /** What the image's own tasks do to these disks, left to finish or cut off after the tarball. */
  lemma TarredSteps(e: Entry, f: Entry)
    requires PlainImage(e) && PlainImage(f) && e.dest == f.dest && OrEmpty(e.image) != OrEmpty(f.image)
    ensures var a, b := OrEmpty(e.image), OrEmpty(f.image);
            && ImagePublish(Host(map[], 9, []), e).disk == Tarred(e, a, a)
            && ImagePublish(Host(Tarred(e, a, a), 2, []), f).disk == Tarred(e, b, a)
            && ImagePublish(Host(Tarred(e, b, a), 9, []), e).disk == Tarred(e, b, a)
            && TagMatches(Tarred(e, b, a), e.dest, a)
  {
    var a, b := OrEmpty(e.image), OrEmpty(f.image);
    OwnPathsDiffer(e);
    OwnPathsDiffer(f);
    TagReadsBack(a);
  }

  lemma TarredIsPlain(e: Entry, f: Entry, built: string, tag: string)
    requires PlainImage(e) && e.dest == f.dest
    ensures NoLegacy(Tarred(e, built, tag)) && Marker(f) !in Tarred(e, built, tag)
  {
    OwnPathsDiffer(f);
  }

  /** From an empty root, with a manifest of one image: publish `e`; pin `f` and cut the run off before its tag
      is recorded; pin `e` again and run to the end. The tag file says `e`, the tarball is `f`. */
  lemma ImageRollback(e: Entry, f: Entry, one: Disk, cut: Disk, back: Disk)
    requires PlainImage(e) && PlainImage(f) && e.dest == f.dest && OrEmpty(e.image) != OrEmpty(f.image)
    requires one == Stage(Host(map[], 9, []), Only(e)).disk
    requires cut == Stage(Host(one, 2, []), Only(f)).disk
    requires back == Stage(Host(cut, 9, []), Only(e)).disk
    ensures Serves(back, e.dest, OrEmpty(f.image)) && TagMatches(back, e.dest, OrEmpty(e.image))
  {
    var a, b := OrEmpty(e.image), OrEmpty(f.image);
    TarredSteps(e, f);
    TarredIsPlain(e, f, a, a);
    TarredIsPlain(e, e, b, a);
    OneImage(Host(map[], 9, []), e);
    OneImage(Host(one, 2, []), f);
    OneImage(Host(cut, 9, []), e);
  }
}
