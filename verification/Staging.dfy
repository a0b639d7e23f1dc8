/** The artifact staging role: its tasks, in order, on the files under the document root. */
module Staging {
  import opened Wrappers
  import opened Ordering

  datatype Kind = File | Image | Mirror

  datatype Entry = Entry(name: string, kind: Kind, url: Option<string>, image: Option<string>, dest: string,
                         retention: string)

  /** What a file holds, by where it came from. */
  datatype Content = Body(source: string) | Tarball(image: string) | Text(text: string)

  type Disk = map<string, Content>

  /** What a run reports as done, besides markers and removals. */
  datatype Action =
    | Fetch(dest: string, url: string)
    | Export(image: string)
    | Publish(dest: string, image: string)
    | Record(dest: string, image: string)

  /** The host during a run. `budget` is the number of changes still made before the run is cut off; a run
      that is not cut off ends with budget to spare, and a check-mode run has none to begin with. */
  datatype Host = Host(disk: Disk, budget: nat, log: seq<Action>)

  /** Role inputs; a url in `unreachable` fails to download after its retries. */
  datatype Config = Config(enabled: bool, manifest: seq<Entry>, publishedNames: set<string>, unreachable: set<string>)

  // ----- Names -----

  function OrEmpty(s: Option<string>): string {
    if s.Some? then s.value else ""
  }

  /** `entry.get('url', entry.get('image', ''))`. */
  function Source(e: Entry): string {
    if e.url.Some? then e.url.value else OrEmpty(e.image)
  }

  predicate IsTokenChar(c: char) {
    'A' <= c <= 'Z' || 'a' <= c <= 'z' || '0' <= c <= '9' || c in "._~-"
  }

  /** `regex_replace('[^A-Za-z0-9._~-]', '')`. */
  function Token(s: string): string {
    if s == "" then "" else if IsTokenChar(s[0]) then [s[0]] + Token(s[1..]) else Token(s[1..])
  }

  function MarkerPath(dest: string, source: string): string {
    dest + ".published." + Token(source)
  }

  /** Where the lookup, the publisher and the validator expect an entry's marker. */
  function Marker(e: Entry): string {
    MarkerPath(e.dest, Source(e))
  }

  function TagFile(e: Entry): string {
    e.dest + ".tag"
  }

  function DigestFile(e: Entry): string {
    e.dest + ".digest"
  }

  predicate EndsWith(s: string, suffix: string) {
    |suffix| <= |s| && s[|s| - |suffix|..] == suffix
  }

  /** Jinja's `trim`: Python's `str.strip()`. */
  predicate IsSpace(c: char) {
    || '\t' <= c <= '\r' || '\U{1c}' <= c <= ' ' || c == '\U{85}' || c == '\U{a0}' || c == '\U{1680}'
    || '\U{2000}' <= c <= '\U{200a}' || c == '\U{2028}' || c == '\U{2029}' || c == '\U{202f}' || c == '\U{205f}'
    || c == '\U{3000}'
  }

  function TrimLeft(s: string): string {
    if s != "" && IsSpace(s[0]) then TrimLeft(s[1..]) else s
  }

  function TrimRight(s: string): string {
    if s != "" && IsSpace(s[|s| - 1]) then TrimRight(s[..|s| - 1]) else s
  }

  function Trim(s: string): string {
    TrimRight(TrimLeft(s))
  }

  // ----- Manifest selections -----

  predicate PlainPath(d: string) {
    |d| >= 2 && d[0] != '/' && d[|d| - 1] != '/' && '\0' !in d[1..|d| - 1]
  }

  /** `dest is match('^[^/][^\0]*[^/]$')`; `$` also stands before a final newline. */
  predicate DestMatches(d: string) {
    PlainPath(d) || (d != "" && d[|d| - 1] == '\n' && PlainPath(d[..|d| - 1]))
  }

  /** The fields an entry's type requires. */
  predicate Complete(e: Entry) {
    && (e.kind == File ==> OrEmpty(e.url) != "")
    && (e.kind != File ==> OrEmpty(e.image) != "")
    && (e.kind != Mirror ==> DestMatches(e.dest))
    && (e.retention == "bootstrap" || e.retention == "transit")
  }

  function Local(manifest: seq<Entry>): (r: seq<Entry>)
    ensures forall e :: e in r <==> e in manifest && e.kind != Mirror
  {
    if manifest == [] then []
    else
      var before, e := Local(manifest[..|manifest| - 1]), manifest[|manifest| - 1];
      if e.kind == Mirror then before else before + [e]
  }

  function MarkedNames(disk: Disk, local: seq<Entry>): set<string> {
    set e | e in local && Marker(e) in disk :: e.name
  }

  /** The entries of one kind that are neither published nor marked. */
  function Wanted(local: seq<Entry>, kind: Kind, excluded: set<string>): (r: seq<Entry>)
    ensures forall e :: e in r <==> e in local && e.kind == kind && e.name !in excluded
  {
    if local == [] then []
    else
      var before, e := Wanted(local[..|local| - 1], kind, excluded), local[|local| - 1];
      if e.kind == kind && e.name !in excluded then before + [e] else before
  }

  // ----- Changes -----

  function Put(h: Host, path: string, c: Content): Host {
    if h.budget == 0 then h else h.(disk := h.disk[path := c], budget := h.budget - 1)
  }

  function Delete(h: Host, path: string): Host {
    if h.budget == 0 then h else h.(disk := h.disk - {path}, budget := h.budget - 1)
  }

  function Note(h: Host, a: Action): Host {
    if h.budget == 0 then h else h.(log := h.log + [a], budget := h.budget - 1)
  }

  /** A reported write. */
  function Do(h: Host, path: string, c: Content, a: Action): Host {
    if h.budget == 0 then h else Host(h.disk[path := c], h.budget - 1, h.log + [a])
  }

  /** Files found under the root whose name ends in `suffix`. */
  function Matching(disk: Disk, suffix: string): (paths: seq<string>)
    ensures forall p :: p in paths <==> p in disk && EndsWith(p, suffix)
  {
    LexIsTotalOrder();
    SortedSet(LexLe, set p | p in disk && EndsWith(p, suffix))
  }

  function Deletes(h: Host, paths: seq<string>): Host {
    if paths == [] then h else Delete(Deletes(h, paths[..|paths| - 1]), paths[|paths| - 1])
  }

  // ----- files.yml -----

  function Download(h: Host, e: Entry, unreachable: set<string>): Host {
    var url := OrEmpty(e.url);
    if url in unreachable then h else Do(h, e.dest, Body(url), Fetch(e.dest, url))
  }

  function Downloads(h: Host, files: seq<Entry>, unreachable: set<string>): Host {
    if files == [] then h
    else Download(Downloads(h, files[..|files| - 1], unreachable), files[|files| - 1], unreachable)
  }

  /** `copy` with `force: false`: an existing marker stays. */
  function Mark(h: Host, e: Entry): Host {
    var path := MarkerPath(e.dest, OrEmpty(e.url));
    if path in h.disk then h else Put(h, path, Text(""))
  }

  function Marks(h: Host, files: seq<Entry>): Host {
    if files == [] then h else Mark(Marks(h, files[..|files| - 1]), files[|files| - 1])
  }

  // ----- image_publish.yml -----

  predicate TagMatches(disk: Disk, dest: string, image: string) {
    var tag := dest + ".tag";
    tag in disk && disk[tag].Text? && Trim(disk[tag].text) == image
  }

  predicate NeedsExport(disk: Disk, e: Entry) {
    e.dest !in disk || DigestFile(e) in disk || !TagMatches(disk, e.dest, OrEmpty(e.image))
  }

  /** Export to scratch, publish the tarball, record its tag. */
  function Exported(h: Host, e: Entry): Host {
    var image := OrEmpty(e.image);
    var published := Do(Note(h, Export(image)), e.dest, Tarball(image), Publish(e.dest, image));
    Do(published, TagFile(e), Text(image + "\n"), Record(e.dest, image))
  }

  /** The same if it is needed, then drop the legacy marker. */
  function ImagePublish(h: Host, e: Entry): Host {
    var exported := if NeedsExport(h.disk, e) then Exported(h, e) else h;
    if DigestFile(e) in h.disk then Delete(exported, DigestFile(e)) else exported
  }

  function Images(h: Host, images: seq<Entry>): Host {
    if images == [] then h else ImagePublish(Images(h, images[..|images| - 1]), images[|images| - 1])
  }

  // ----- main.yml -----

  predicate Accepts(cfg: Config) {
    cfg.enabled && forall e | e in cfg.manifest :: Complete(e)
  }

  /** Names that are not staged: published, or holding a marker when the run begins. */
  function Excluded(disk: Disk, cfg: Config): set<string> {
    cfg.publishedNames + MarkedNames(disk, Local(cfg.manifest))
  }

  function WantedFiles(disk: Disk, cfg: Config): seq<Entry> {
    Wanted(Local(cfg.manifest), File, Excluded(disk, cfg))
  }

  function WantedImages(disk: Disk, cfg: Config): seq<Entry> {
    Wanted(Local(cfg.manifest), Image, Excluded(disk, cfg))
  }

  predicate AllReachable(cfg: Config, files: seq<Entry>) {
    forall e | e in files :: OrEmpty(e.url) !in cfg.unreachable
  }

  /** After the removal of first-generation markers and the downloads. */
  function Fetched(h: Host, cfg: Config): Host {
    Downloads(Deletes(h, Matching(h.disk, ".published")), WantedFiles(h.disk, cfg), cfg.unreachable)
  }

  /** After the markers and the images too. */
  function Published(h: Host, cfg: Config): Host {
    Images(Marks(Fetched(h, cfg), WantedFiles(h.disk, cfg)), WantedImages(h.disk, cfg))
  }

  function Stage(h: Host, cfg: Config): Host {
    if !Accepts(cfg) then h
    else if !AllReachable(cfg, WantedFiles(h.disk, cfg)) then Fetched(h, cfg)
    else Deletes(Published(h, cfg), Matching(Published(h, cfg).disk, ".sha256"))
  }

  /** The run got to its end. */
  ghost predicate Completes(h: Host, cfg: Config) {
    Accepts(cfg) && AllReachable(cfg, WantedFiles(h.disk, cfg)) && Stage(h, cfg).budget > 0
  }

  // ----- The same, task by task -----

  class ArtifactHost {
    var disk: Disk
    var budget: nat
    var log: seq<Action>

    constructor (disk: Disk, budget: nat)
      ensures Now() == Host(disk, budget, [])
    {
      this.disk, this.budget, log := disk, budget, [];
    }

    function Now(): Host
      reads this
    {
      Host(disk, budget, log)
    }

    method Change(path: string, c: Option<Content>)
      modifies this
      ensures Now() == if c.Some? then Put(old(Now()), path, c.value) else Delete(old(Now()), path)
    {
      if budget > 0 {
        disk := if c.Some? then disk[path := c.value] else disk - {path};
        budget := budget - 1;
      }
    }

    method Write(path: string, c: Content, a: Action)
      modifies this
      ensures Now() == Do(old(Now()), path, c, a)
    {
      if budget > 0 {
        disk := disk[path := c];
        budget := budget - 1;
        log := log + [a];
      }
    }

    method Remove(paths: seq<string>)
      modifies this
      ensures Now() == Deletes(old(Now()), paths)
    {
      for i := 0 to |paths|
        invariant Now() == Deletes(old(Now()), paths[..i])
      {
        assert paths[..i + 1][..i] == paths[..i];
        Change(paths[i], None);
      }
      assert paths[..|paths|] == paths;
    }

    method DownloadFiles(files: seq<Entry>, unreachable: set<string>) returns (failed: bool)
      modifies this
      ensures Now() == Downloads(old(Now()), files, unreachable)
      ensures !failed <==> forall e | e in files :: OrEmpty(e.url) !in unreachable
    {
      failed := false;
      for i := 0 to |files|
        invariant Now() == Downloads(old(Now()), files[..i], unreachable)
        invariant !failed <==> forall e | e in files[..i] :: OrEmpty(e.url) !in unreachable
      {
        assert files[..i + 1][..i] == files[..i] && files[..i + 1] == files[..i] + [files[i]];
        var url := OrEmpty(files[i].url);
        if url in unreachable {
          failed := true;
        } else {
          Write(files[i].dest, Body(url), Fetch(files[i].dest, url));
        }
      }
      assert files[..|files|] == files;
    }

    method RecordSources(files: seq<Entry>)
      modifies this
      ensures Now() == Marks(old(Now()), files)
    {
      for i := 0 to |files|
        invariant Now() == Marks(old(Now()), files[..i])
      {
        assert files[..i + 1][..i] == files[..i];
        var path := MarkerPath(files[i].dest, OrEmpty(files[i].url));
        if path !in disk {
          Change(path, Some(Text("")));
        }
      }
      assert files[..|files|] == files;
    }

    method PublishImage(e: Entry)
      modifies this
      ensures Now() == ImagePublish(old(Now()), e)
    {
      var image, tag := OrEmpty(e.image), TagFile(e);
      var hadTarball, hadTag, hadDigest := e.dest in disk, tag in disk, DigestFile(e) in disk;
      if !hadTarball || !hadTag || hadDigest || !disk[tag].Text? || Trim(disk[tag].text) != image {
        if budget > 0 {
          log := log + [Export(image)];
          budget := budget - 1;
        }
        Write(e.dest, Tarball(image), Publish(e.dest, image));
        Write(tag, Text(image + "\n"), Record(e.dest, image));
      }
      if hadDigest {
        Change(DigestFile(e), None);
      }
    }

    method PublishImages(images: seq<Entry>)
      modifies this
      ensures Now() == Images(old(Now()), images)
    {
      for i := 0 to |images|
        invariant Now() == Images(old(Now()), images[..i])
      {
        assert images[..i + 1][..i] == images[..i];
        PublishImage(images[i]);
      }
      assert images[..|images|] == images;
    }

    method RunRole(cfg: Config)
      modifies this
      ensures Now() == Stage(old(Now()), cfg)
    {
      if !Accepts(cfg) {
        return;
      }
      var files, images := WantedFiles(disk, cfg), WantedImages(disk, cfg);
      Remove(Matching(disk, ".published"));
      var failed := DownloadFiles(files, cfg.unreachable);
      if failed {
        return;
      }
      RecordSources(files);
      PublishImages(images);
      Remove(Matching(disk, ".sha256"));
    }
  }
}
