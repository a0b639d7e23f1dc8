/** Over any history of a file's destination: when does a marker speak for the body beside it? */
module FileHistories {
  import opened Wrappers
  import opened Staging
  import opened StagingSteps
  import opened Histories

  /** A marker for `source` stands beside no body, or beside the body fetched from it. */
  ghost predicate Agrees(disk: Disk, dest: string, source: string) {
    MarkerPath(dest, source) in disk ==> dest !in disk || disk[dest] == Body(source)
  }

  /** After any run, finished or not, marker and body agree exactly if the run began without that marker or
      they agreed already. */
  lemma AgreementStep(h: Host, cfg: Config, e: Entry)
    requires Tidy(cfg) && e in Local(cfg.manifest) && e.kind == File && Complete(e)
    ensures Agrees(Stage(h, cfg).disk, e.dest, Source(e)) <==>
            Marker(e) !in h.disk || Agrees(h.disk, e.dest, Source(e))
  {
    if Accepts(cfg) {
      if e.name in cfg.publishedNames || Marker(e) in h.disk {
        ExcludedUntouched(h, cfg, e, e.dest);
        ExcludedUntouched(h, cfg, e, Marker(e));
      } else {
        FileStaged(h, cfg, e);
      }
    }
  }

  // ----- One turn -----

  /** Besides, nothing but the pin uses a marker of any of these sources, where the role gets going. */
  ghost predicate FileTurn(t: Turn, dest: string, all: set<string>) {
    && TurnFor(t, File, dest, {dest})
    && (t.pin.Some? ==> Source(t.pin.value) in all)
    && (Accepts(t.cfg) ==> forall s | s in all :: KeepsOff(t, MarkerPath(dest, s)))
  }

  /** The run reports fetching the pin. */
  predicate Fetches(disk: Disk, t: Turn) {
    t.pin.Some? && Fetch(t.pin.value.dest, Source(t.pin.value)) in RunOf(disk, t).log
  }

  lemma TokensApart(dest: string, a: string, b: string)
    requires Token(a) != Token(b)
    ensures MarkerPath(dest, a) != MarkerPath(dest, b)
  {
    var prefix := dest + ".published.";
    assert MarkerPath(dest, a)[|prefix|..] == Token(a) && MarkerPath(dest, b)[|prefix|..] == Token(b);
  }

  lemma MarkerIsLonger(dest: string, source: string)
    ensures MarkerPath(dest, source) != dest
  {
    assert |MarkerPath(dest, source)| >= |dest| + 11;
  }

  ghost predicate SameToken(t: Turn, source: string) {
    t.pin.Some? && Token(Source(t.pin.value)) == Token(source)
  }

  /** A marker with another token is neither written nor removed by a turn. */
  lemma ForeignMarker(disk: Disk, t: Turn, dest: string, all: set<string>, source: string)
    requires FileTurn(t, dest, all) && source in all && !SameToken(t, source)
    ensures Same(disk, AfterTurn(disk, t), MarkerPath(dest, source))
  {
    var path := MarkerPath(dest, source);
    MarkerIsLonger(dest, source);
    if t.pin.Some? {
      TokensApart(dest, Source(t.pin.value), source);
    }
    if Accepts(t.cfg) {
      OffLimits(disk, t, path);
    }
  }

  /** The body after a turn: gone if retired, fetched if the run reports it, else as it was. */
  lemma BodyStep(disk: Disk, t: Turn, dest: string, all: set<string>)
    requires FileTurn(t, dest, all)
    ensures t.retire ==> dest !in AfterTurn(disk, t)
    ensures !t.retire ==> if Fetches(disk, t) then HasBody(AfterTurn(disk, t), dest, Source(t.pin.value))
                          else Same(disk, AfterTurn(disk, t), dest)
  {
    if Skips(disk, t) {
      Untouched(disk, t, File, dest, {dest}, dest);
      assert t.pin.Some? ==> About(Fetch(dest, Source(t.pin.value)), dest);
    } else {
      FileStaged(Host(disk, t.budget, []), t.cfg, t.pin.value);
    }
  }

  /** The pin's marker after a turn: it stays, and appears only with a reported fetch or by retiring. */
  lemma MarkStep(disk: Disk, t: Turn, dest: string, all: set<string>)
    requires FileTurn(t, dest, all) && t.pin.Some?
    ensures var marker := Marker(t.pin.value);
            && (marker in disk ==> marker in AfterTurn(disk, t))
            && (marker in AfterTurn(disk, t) ==> marker in disk || Fetches(disk, t) || t.retire)
            && (Finishes(disk, t) ==> marker in AfterTurn(disk, t))
  {
    MarkerIsLonger(dest, Source(t.pin.value));
    if Skips(disk, t) {
      Untouched(disk, t, File, dest, {dest}, Marker(t.pin.value));
    } else {
      FileStaged(Host(disk, t.budget, []), t.cfg, t.pin.value);
    }
  }

  /** A marker appears only in a turn that fetches or retires. */
  lemma NoNewMarkers(disk: Disk, t: Turn, dest: string, all: set<string>)
    requires FileTurn(t, dest, all) && !Fetches(disk, t) && !t.retire && Unmarked(disk, dest, all)
    ensures Unmarked(AfterTurn(disk, t), dest, all)
  {
    forall s | s in all ensures MarkerPath(dest, s) !in AfterTurn(disk, t) {
      if SameToken(t, s) {
        MarkStep(disk, t, dest, all);
      } else {
        ForeignMarker(disk, t, dest, all, s);
      }
    }
  }

  // ----- Any history -----

  /** The disk holds none of the destination's markers for these sources. */
  ghost predicate Unmarked(disk: Disk, dest: string, all: set<string>) {
    forall s | s in all :: MarkerPath(dest, s) !in disk
  }

  ghost predicate FileHistory(turns: seq<Turn>, dest: string, all: set<string>) {
    forall t | t in turns :: FileTurn(t, dest, all)
  }

  /** The source of the last fetch that a run of the history reports for the destination. */
  function LastFetched(disk: Disk, turns: seq<Turn>): Option<string> {
    if turns == [] then None
    else
      var init, t := turns[..|turns| - 1], turns[|turns| - 1];
      if Fetches(After(disk, init), t) then Some(Source(t.pin.value)) else LastFetched(disk, init)
  }

  /** A body is the last one fetched; as long as none was fetched, no marker stands beside a body. */
  lemma {:induction false} Ledger(disk: Disk, turns: seq<Turn>, dest: string, all: set<string>)
    requires FileHistory(turns, dest, all) && (dest in disk ==> Unmarked(disk, dest, all))
    ensures var after, last := After(disk, turns), LastFetched(disk, turns);
            dest in after ==> if last.Some? then after[dest] == Body(last.value) else Unmarked(after, dest, all)
  {
    if turns != [] {
      var init, t := turns[..|turns| - 1], turns[|turns| - 1];
      assert t in turns;
      Ledger(disk, init, dest, all);
      BodyStep(After(disk, init), t, dest, all);
      if !Fetches(After(disk, init), t) && !t.retire && Unmarked(After(disk, init), dest, all) {
        NoNewMarkers(After(disk, init), t, dest, all);
      }
    }
  }

  /** Exactly when a marker can be believed, over every history - cut off anywhere, re-pinned at will, published
      at any time: if it is not there, or no body is, or the last fetch reported for the destination was from its
      own source. All three can be told without looking into the body. */
  lemma AgreementIff(disk: Disk, turns: seq<Turn>, dest: string, all: set<string>, source: string)
    requires FileHistory(turns, dest, all) && (dest in disk ==> Unmarked(disk, dest, all)) && source in all
    ensures var after := After(disk, turns);
            Agrees(after, dest, source) <==>
            MarkerPath(dest, source) !in after || dest !in after || LastFetched(disk, turns) == Some(source)
  {
    Ledger(disk, turns, dest, all);
  }

  // ----- Histories in which no source returns -----

  predicate KnownToken(turns: seq<Turn>, source: string) {
    exists t :: t in turns && t.pin.Some? && Token(Source(t.pin.value)) == Token(source)
  }

  /** The source pinned last. */
  function Current(turns: seq<Turn>): Option<string> {
    if turns == [] then None
    else if turns[|turns| - 1].pin.Some? then Some(Source(turns[|turns| - 1].pin.value))
    else Current(turns[..|turns| - 1])
  }

  /** Each pinned source is the one pinned before, or has a token that was not pinned yet. */
  predicate NeverReturns(turns: seq<Turn>) {
    turns != [] ==>
      var init, t := turns[..|turns| - 1], turns[|turns| - 1];
      NeverReturns(init) &&
      (t.pin.Some? ==> Current(init) == Some(Source(t.pin.value)) || !KnownToken(init, Source(t.pin.value)))
  }

  lemma KnownStep(turns: seq<Turn>, t: Turn, source: string)
    ensures KnownToken(turns + [t], source) <==> KnownToken(turns, source) || SameToken(t, source)
  {
    if SameToken(t, source) {
      assert t in turns + [t];
    }
    if x :| x in turns && x.pin.Some? && Token(Source(x.pin.value)) == Token(source) {
      assert x in turns + [t];
    }
  }

  /** A marker only appears in a history that pins a source with its token. */
  lemma {:induction false} MarkersComeFromPins(disk: Disk, turns: seq<Turn>, dest: string, all: set<string>,
                                               source: string)
    requires FileHistory(turns, dest, all) && source in all && MarkerPath(dest, source) !in disk
    requires !KnownToken(turns, source)
    ensures MarkerPath(dest, source) !in After(disk, turns)
  {
    if turns != [] {
      var init, t := turns[..|turns| - 1], turns[|turns| - 1];
      assert t in turns && turns == init + [t];
      KnownStep(init, t, source);
      MarkersComeFromPins(disk, init, dest, all, source);
      ForeignMarker(After(disk, init), t, dest, all, source);
    }
  }

  /** Over any history in which a source that was replaced never comes back, cut off anywhere and published at
      any time, a marker for the current source means that the body came from it or was retired. */
  lemma {:induction false} MarkerSpeaksForBody(disk: Disk, turns: seq<Turn>, dest: string, all: set<string>)
    requires FileHistory(turns, dest, all) && Unmarked(disk, dest, all)
    requires NeverReturns(turns) && Current(turns).Some?
    ensures Agrees(After(disk, turns), dest, Current(turns).value)
  {
    var init, t, source := turns[..|turns| - 1], turns[|turns| - 1], Current(turns).value;
    assert t in turns;
    CurrentIsPinned(turns, dest, all);
    BodyStep(After(disk, init), t, dest, all);
    if t.pin.None? {
      MarkerSpeaksForBody(disk, init, dest, all);
      ForeignMarker(After(disk, init), t, dest, all, source);
    } else {
      MarkStep(After(disk, init), t, dest, all);
      if KnownToken(init, source) {
        MarkerSpeaksForBody(disk, init, dest, all);
      } else {
        MarkersComeFromPins(disk, init, dest, all, source);
      }
    }
  }

  lemma {:induction false} CurrentIsPinned(turns: seq<Turn>, dest: string, all: set<string>)
    requires FileHistory(turns, dest, all)
    ensures Current(turns).Some? ==> Current(turns).value in all
  {
    if turns != [] {
      assert turns[|turns| - 1] in turns;
      CurrentIsPinned(turns[..|turns| - 1], dest, all);
    }
  }

  // ----- Histories of full runs -----

  /** The turn runs to its end, retires nothing, and does not list the entry as published; or it has no pin. */
  ghost predicate IsFull(disk: Disk, t: Turn) {
    !t.retire &&
    (t.pin.Some? ==> t.pin.value.name !in t.cfg.publishedNames && Completes(Host(disk, t.budget, []), t.cfg))
  }

  ghost predicate AllFull(disk: Disk, turns: seq<Turn>) {
    turns != [] ==>
      var init := turns[..|turns| - 1];
      AllFull(disk, init) && IsFull(After(disk, init), turns[|turns| - 1])
  }

  /** The last source pinned whose token had not been pinned before. */
  function LastNew(turns: seq<Turn>): Option<string> {
    if turns == [] then None
    else
      var init, t := turns[..|turns| - 1], turns[|turns| - 1];
      if t.pin.Some? && !KnownToken(init, Source(t.pin.value)) then Some(Source(t.pin.value)) else LastNew(init)
  }

  /** A full run fetches and marks exactly the unmarked. */
  lemma FullStep(disk: Disk, t: Turn, dest: string, all: set<string>)
    requires FileTurn(t, dest, all) && IsFull(disk, t) && t.pin.Some?
    ensures Marker(t.pin.value) in AfterTurn(disk, t)
    ensures Fetches(disk, t) <==> Marker(t.pin.value) !in disk
  {
    if Marker(t.pin.value) in disk {
      Untouched(disk, t, File, dest, {dest}, Marker(t.pin.value));
      Untouched(disk, t, File, dest, {dest}, dest);
      assert About(Fetch(dest, Source(t.pin.value)), dest);
    } else {
      FileStaged(Host(disk, t.budget, []), t.cfg, t.pin.value);
    }
  }

  /** After full runs a source's marker is there exactly if its token has been pinned. */
  lemma {:induction false} MarkedIffKnown(disk: Disk, turns: seq<Turn>, dest: string, all: set<string>, source: string)
    requires FileHistory(turns, dest, all) && AllFull(disk, turns)
    requires source in all && MarkerPath(dest, source) !in disk
    ensures MarkerPath(dest, source) in After(disk, turns) <==> KnownToken(turns, source)
  {
    if turns != [] {
      var init, t := turns[..|turns| - 1], turns[|turns| - 1];
      assert t in turns && turns == init + [t];
      KnownStep(init, t, source);
      MarkedIffKnown(disk, init, dest, all, source);
      if SameToken(t, source) {
        FullStep(After(disk, init), t, dest, all);
      } else {
        ForeignMarker(After(disk, init), t, dest, all, source);
      }
    }
  }

  /** Full runs end with the body of the last new pin ... */
  lemma {:induction false} BodyIsLastNew(disk: Disk, turns: seq<Turn>, dest: string, all: set<string>)
    requires FileHistory(turns, dest, all) && AllFull(disk, turns) && Unmarked(disk, dest, all)
    ensures Current(turns).Some? ==> LastNew(turns).Some?
    ensures LastNew(turns).Some? ==> HasBody(After(disk, turns), dest, LastNew(turns).value)
  {
    if turns != [] {
      var init, t := turns[..|turns| - 1], turns[|turns| - 1];
      assert t in turns;
      BodyIsLastNew(disk, init, dest, all);
      BodyStep(After(disk, init), t, dest, all);
      if t.pin.Some? {
        FullStep(After(disk, init), t, dest, all);
        MarkedIffKnown(disk, init, dest, all, Source(t.pin.value));
        if KnownToken(init, Source(t.pin.value)) {
          KnownIsCurrent(init, Source(t.pin.value));
        }
      }
    }
  }

  lemma {:induction false} KnownIsCurrent(turns: seq<Turn>, source: string)
    requires KnownToken(turns, source)
    ensures Current(turns).Some?
  {
    var init, t := turns[..|turns| - 1], turns[|turns| - 1];
    assert turns == init + [t];
    KnownStep(init, t, source);
    if t.pin.None? {
      KnownIsCurrent(init, source);
    }
  }

  /** ... so with the body the current pin asks for exactly when that pin is the last new one: pinning back to an
      earlier source does not bring its body back. */
  lemma PinServedIff(disk: Disk, turns: seq<Turn>, dest: string, all: set<string>)
    requires FileHistory(turns, dest, all) && AllFull(disk, turns) && Unmarked(disk, dest, all)
    requires Current(turns).Some?
    ensures LastNew(turns).Some? && HasBody(After(disk, turns), dest, LastNew(turns).value)
    ensures Agrees(After(disk, turns), dest, Current(turns).value) <==> Current(turns) == LastNew(turns)
  {
    BodyIsLastNew(disk, turns, dest, all);
    CurrentIsPinned(turns, dest, all);
    CurrentIsKnown(turns);
    MarkedIffKnown(disk, turns, dest, all, Current(turns).value);
  }

  lemma {:induction false} CurrentIsKnown(turns: seq<Turn>)
    requires Current(turns).Some?
    ensures KnownToken(turns, Current(turns).value)
  {
    var init, t := turns[..|turns| - 1], turns[|turns| - 1];
    assert turns == init + [t];
    KnownStep(init, t, Current(turns).value);
    if t.pin.None? {
      CurrentIsKnown(init);
    }
  }

  lemma LastNewOfRollback(x: Turn, y: Turn, z: Turn)
    requires x.pin.Some? && y.pin.Some? && z.pin.Some? && Source(x.pin.value) == Source(z.pin.value)
    requires Token(Source(x.pin.value)) != Token(Source(y.pin.value))
    ensures LastNew([x, y, z]) == Some(Source(y.pin.value)) && Current([x, y, z]) == Some(Source(x.pin.value))
  {
    assert [x, y, z][..2] == [x, y] && [x, y][..1] == [x];
    assert x in [x, y];
    assert KnownToken([x, y], Source(x.pin.value)) && !KnownToken([x], Source(y.pin.value));
  }

  /** The rollback A, B, A in full runs keeps serving B under a marker for A. */
  lemma RollbackServesStale(disk: Disk, x: Turn, y: Turn, z: Turn, dest: string, all: set<string>)
    requires FileHistory([x, y, z], dest, all) && AllFull(disk, [x, y, z]) && Unmarked(disk, dest, all)
    requires x.pin.Some? && y.pin.Some? && z.pin.Some? && Source(x.pin.value) == Source(z.pin.value)
    requires Token(Source(x.pin.value)) != Token(Source(y.pin.value))
    ensures var after := After(disk, [x, y, z]);
            HasBody(after, dest, Source(y.pin.value)) && !Agrees(after, dest, Source(x.pin.value))
  {
    LastNewOfRollback(x, y, z);
    PinServedIff(disk, [x, y, z], dest, all);
  }
}
