/** The books of a cleanup run: which attempts are made, and what the report says of each volume. */
module CleanupAccounts {
  import opened Wrappers
  import opened Ordering
  import opened SshSession
  import opened Cleanup
  import opened CleanupGuarantees

  // ----- The two stages on one node -----

  ghost predicate Succeeded(attempts: seq<Attempt>, key: Key) {
    exists a :: a in attempts && a.key == key && a.error == ""
  }

  /** Stage one: one API attempt per orphan, in order, and the dict holds each one's error. */
  ghost predicate ApiLogged(keys: seq<Key>, errors: map<Key, string>, apis: seq<Attempt>) {
    |apis| == |keys| && forall i | 0 <= i < |keys| :: apis[i] == Api(keys[i], ErrorAt(errors, keys[i]))
  }

  /** Each attempt counts as success exactly if the cluster's answer to it says so. */
  ghost predicate ApiTold(env: Env, from: nat, keys: seq<Key>, apis: seq<Attempt>) {
    |apis| == |keys| && forall i | 0 <= i < |keys| :: apis[i].error == "" <==> SaysDeleted(env.api(from + i, keys[i]))
  }

  lemma {:induction false} ApiAccount(env: Env, w: World, keys: seq<Key>) returns (apis: seq<Attempt>)
    requires NoRepeats(keys)
    ensures ApiStage(env, w, keys).world.log == w.log + apis
    ensures ApiLogged(keys, ApiStage(env, w, keys).errors, apis)
    ensures ApiTold(env, |w.log|, keys, apis)
  {
    hide SaysDeleted, ApiError;
    apis := [];
    if keys != [] {
      var init, key := keys[..|keys| - 1], keys[|keys| - 1];
      apis := ApiAccount(env, w, init);
      var reply := env.api(|w.log + apis|, key);
      ApiSucceedsIff(reply);
      apis := apis + [Api(key, ApiError(reply))];
    }
  }

  /** Stage two: SSH was attempted for a prefix of the failures, in order; each attempt rewrote only its own
      key's error, to the empty string exactly on success. */
  ghost predicate SshLogged(failed: seq<Key>, before: map<Key, string>, after: map<Key, string>, sshs: seq<Attempt>) {
    && |sshs| <= |failed|
    && (forall i | 0 <= i < |sshs| ::
          sshs[i].Ssh? && sshs[i].key == failed[i] && (ErrorAt(after, failed[i]) == "" <==> sshs[i].error == ""))
    && (forall k | k !in failed[..|sshs|] :: ErrorAt(after, k) == ErrorAt(before, k))
  }

  lemma SshLoggedStep(failed: seq<Key>, before: map<Key, string>, mid: map<Key, string>, after: map<Key, string>,
                      sshs: seq<Attempt>, error: string)
    requires NoRepeats(failed) && failed != [] && |sshs| == |failed| - 1
    requires SshLogged(failed[..|failed| - 1], before, mid, sshs)
    requires ErrorAt(after, failed[|failed| - 1]) == "" <==> error == ""
    requires forall k | k != failed[|failed| - 1] :: ErrorAt(after, k) == ErrorAt(mid, k)
    ensures SshLogged(failed, before, after, sshs + [Ssh(failed[|failed| - 1], error)])
  {
    var last := |failed| - 1;
    assert failed[..|failed|] == failed[..last] + [failed[last]] && failed[..last][..last] == failed[..last];
    forall i | 0 <= i < last ensures failed[i] != failed[last] && failed[..last][i] == failed[i] {
    }
  }

  lemma SshLoggedStop(failed: seq<Key>, before: map<Key, string>, after: map<Key, string>, sshs: seq<Attempt>)
    requires failed != [] && SshLogged(failed[..|failed| - 1], before, after, sshs)
    ensures SshLogged(failed, before, after, sshs)
  {
    var init := failed[..|failed| - 1];
    assert init[..|sshs|] == failed[..|sshs|];
    assert forall i | 0 <= i < |sshs| :: init[i] == failed[i];
  }

  ghost predicate SshTold(env: Env, from: nat, failed: seq<Key>, sshs: seq<Attempt>) {
    |sshs| <= |failed| && forall j | 0 <= j < |sshs| ::
      var reply := env.ssh(from + j, failed[j]);
      reply.Answer? && (sshs[j].error == "" <==> SaysFreed(reply.session))
  }

  lemma SshToldStep(env: Env, from: nat, failed: seq<Key>, sshs: seq<Attempt>, error: string)
    requires failed != [] && |sshs| == |failed| - 1 && SshTold(env, from, failed[..|failed| - 1], sshs)
    requires var reply := env.ssh(from + |sshs|, failed[|failed| - 1]);
             reply.Answer? && (error == "" <==> SaysFreed(reply.session))
    ensures SshTold(env, from, failed, sshs + [Ssh(failed[|failed| - 1], error)])
  {
    hide SaysFreed;
    assert forall j | 0 <= j < |sshs| :: failed[..|failed| - 1][j] == failed[j];
  }

  lemma SshToldStop(env: Env, from: nat, failed: seq<Key>, sshs: seq<Attempt>)
    requires failed != [] && SshTold(env, from, failed[..|failed| - 1], sshs)
    ensures SshTold(env, from, failed, sshs)
  {
    hide SaysFreed;
    assert forall j | 0 <= j < |sshs| :: failed[..|failed| - 1][j] == failed[j];
  }

  /** Why the attempts stopped short of the failures: the next one found no pexpect, or no password. */
  ghost predicate StoppedAt(env: Env, at: nat, key: Key, raised: bool) {
    if raised then env.ssh(at, key).NoPassword? else env.ssh(at, key).NoPexpect?
  }

  lemma NoRetry(env: Env, from: nat, failed: seq<Key>, errors: map<Key, string>)
    ensures SshLogged(failed, errors, errors, []) && SshTold(env, from, failed, [])
  {
  }

  lemma FallbackErrorIff(errors: map<Key, string>, key: Key, error: string)
    ensures FallbackError(errors, key, error) == "" <==> error == ""
  {
  }

  lemma {:induction false} SshAccount(env: Env, start: Stage, failed: seq<Key>) returns (sshs: seq<Attempt>)
    requires NoRepeats(failed)
    ensures var r := SshStage(env, start, failed);
            && r.stage.world.log == start.world.log + sshs
            && SshLogged(failed, start.errors, r.stage.errors, sshs)
            && SshTold(env, |start.world.log|, failed, sshs)
            && (r.Done? ==> |sshs| == |failed|)
            && (!r.Done? ==> |sshs| < |failed| &&
                             StoppedAt(env, |start.world.log| + |sshs|, failed[|sshs|], r.Raised?))
  {
    hide SaysFreed, SessionError, FallbackError, SshTold, SshLogged;
    sshs := [];
    if failed != [] {
      var last := |failed| - 1;
      sshs := SshAccount(env, start, failed[..last]);
      var before, r := SshStage(env, start, failed[..last]), SshStage(env, start, failed);
      if before.Done? && r.Done? {
        var reply := env.ssh(|before.stage.world.log|, failed[last]);
        var error := reply.Error();
        SuccessIff(reply.session);
        FallbackErrorIff(before.stage.errors, failed[last], error);
        SshLoggedStep(failed, start.errors, before.stage.errors, r.stage.errors, sshs, error);
        SshToldStep(env, |start.world.log|, failed, sshs, error);
        sshs := sshs + [Ssh(failed[last], error)];
      } else {
        SshLoggedStop(failed, start.errors, r.stage.errors, sshs);
        SshToldStop(env, |start.world.log|, failed, sshs);
      }
    } else {
      NoRetry(env, |start.world.log|, failed, start.errors);
    }
  }

  ghost predicate ApiFailed(apis: seq<Attempt>, key: Key) {
    exists a :: a in apis && a.Api? && a.key == key && a.error != ""
  }

  /** The volumes whose API attempt failed, in order. */
  ghost function FailedKeys(apis: seq<Attempt>): seq<Key> {
    if apis == [] then []
    else
      var before, a := FailedKeys(apis[..|apis| - 1]), apis[|apis| - 1];
      if a.error != "" then before + [a.key] else before
  }

  /** What a removal pass over `orphans` logs, when `from` attempts were made before it: one API attempt each, in
      order, and then, with a fallback, one SSH attempt for each of those that failed, in order, unless pexpect or the
      password turns out to be missing; without a fallback, none. */
  ghost predicate WellLogged(env: Env, from: nat, orphans: seq<Key>, apis: seq<Attempt>, sshs: seq<Attempt>,
                             raised: bool) {
    var failed := FailedKeys(apis);
    && |apis| == |orphans| && (forall i | 0 <= i < |orphans| :: apis[i].Api? && apis[i].key == orphans[i])
    && ApiTold(env, from, orphans, apis)
    && |sshs| <= |failed| && (forall j | 0 <= j < |sshs| :: sshs[j].Ssh? && sshs[j].key == failed[j])
    && SshTold(env, from + |orphans|, failed, sshs)
    && (!env.fallback ==> sshs == [])
    && (env.fallback && |sshs| < |failed| ==> StoppedAt(env, from + |orphans| + |sshs|, failed[|sshs|], raised))
    && (raised ==> env.fallback && |sshs| < |failed|)
  }

  lemma {:induction false} FailedSame(keys: seq<Key>, errors: map<Key, string>, apis: seq<Attempt>)
    requires ApiLogged(keys, errors, apis)
    ensures Failed(keys, errors) == FailedKeys(apis)
  {
    if keys != [] {
      FailedSame(keys[..|keys| - 1], errors, apis[..|apis| - 1]);
      assert apis[|apis| - 1] == Api(keys[|keys| - 1], ErrorAt(errors, keys[|keys| - 1]));
    }
  }

  /** A key's final error is empty exactly when one of its attempts succeeded. */
  lemma FinalError(orphans: seq<Key>, failed: seq<Key>, first: map<Key, string>, final: map<Key, string>,
                   apis: seq<Attempt>, sshs: seq<Attempt>, k: Key)
    requires ApiLogged(orphans, first, apis) && SshLogged(failed, first, final, sshs) && k in orphans
    requires forall x :: x in failed <==> x in orphans && ErrorAt(first, x) != ""
    ensures ErrorAt(final, k) == "" <==> Succeeded(apis, k) || Succeeded(sshs, k)
  {
    var i :| 0 <= i < |orphans| && orphans[i] == k;
    assert apis[i] in apis;
    if a :| a in apis && a.key == k && a.error == "" {
      var p :| 0 <= p < |apis| && apis[p] == a;
      assert k !in failed;
    }
    if a :| a in sshs && a.key == k && a.error == "" {
      var p :| 0 <= p < |sshs| && sshs[p] == a;
    }
    if k in failed[..|sshs|] {
      var j :| 0 <= j < |sshs| && failed[j] == k;
      assert sshs[j] in sshs;
    }
  }

  lemma SshKeys(failed: seq<Key>, before: map<Key, string>, after: map<Key, string>, sshs: seq<Attempt>)
    requires SshLogged(failed, before, after, sshs)
    ensures |sshs| <= |failed| && forall j | 0 <= j < |sshs| :: sshs[j].Ssh? && sshs[j].key == failed[j]
  {
  }

  /** Accounting of the two stages: the attempts are exactly those, and a key's final error is empty exactly when
      one of its attempts succeeded. */
  lemma RemovalAccount(env: Env, w: World, orphans: seq<Key>) returns (apis: seq<Attempt>, sshs: seq<Attempt>)
    requires NoRepeats(orphans)
    ensures var r := Removal(env, w, orphans);
            && r.stage.world.log == w.log + apis + sshs
            && WellLogged(env, |w.log|, orphans, apis, sshs, r.Raised?)
            && (forall k | k in orphans ::
                  ErrorAt(r.stage.errors, k) == "" <==> Succeeded(apis, k) || Succeeded(sshs, k))
  {
    hide SaysDeleted, SaysFreed, ApiStage, SshStage, Failed, FailedKeys, SshLogged, SshTold, ApiTold, StoppedAt;
    var api, s := ApiStage(env, w, orphans), Removal(env, w, orphans).stage;
    var failed := Failed(orphans, api.errors);
    FailedMember(orphans, api.errors);
    apis := ApiAccount(env, w, orphans);
    FailedSame(orphans, api.errors, apis);
    if failed != [] && env.fallback {
      sshs := SshAccount(env, api, failed);
    } else {
      sshs := [];
      NoRetry(env, |api.world.log|, failed, api.errors);
      assert api.world.log + [] == api.world.log;
    }
    SshKeys(failed, api.errors, s.errors, sshs);
    forall k | k in orphans { FinalError(orphans, failed, api.errors, s.errors, apis, sshs, k); }
  }

  ghost predicate LineFor(line: Line, key: Key, apis: seq<Attempt>, sshs: seq<Attempt>) {
    if Succeeded(apis, key) || Succeeded(sshs, key) then line == Removed(key)
    else line.CouldNotRemove? && line.key == key
  }

  lemma ReportIsTrue(orphans: seq<Key>, errors: map<Key, string>, apis: seq<Attempt>, sshs: seq<Attempt>)
    requires forall k | k in orphans :: ErrorAt(errors, k) == "" <==> Succeeded(apis, k) || Succeeded(sshs, k)
    ensures TrueLines(Report(orphans, true, errors), orphans, apis, sshs)
  {
    forall i | 0 <= i < |orphans| ensures LineFor(Report(orphans, true, errors)[i], orphans[i], apis, sshs) {
      assert orphans[i] in orphans;
    }
  }

  /** One line per orphan, in order, each true. */
  ghost predicate TrueLines(lines: seq<Line>, orphans: seq<Key>, apis: seq<Attempt>, sshs: seq<Attempt>) {
    |lines| == |orphans| && forall i | 0 <= i < |orphans| :: LineFor(lines[i], orphans[i], apis, sshs)
  }

  /** A node's pass ends in an uncaught error exactly if its VM list is unreadable, or, with apply, the fallback
      reaches the missing password. */
  lemma NodeRaises(env: Env, apply: bool, datastores: seq<string>, w: World, node: string)
    ensures CleanNode(env, apply, datastores, w, node).lines.None? <==>
            node !in env.vmids || (apply && Removal(env, w, Orphans(env, w.store, node, datastores)).Raised?)
  {
  }

  /** The accounting of one node's report: the header, then one line per orphan, saying "removed" exactly when
      one of the attempts logged for it succeeded. */
  lemma NodeAccount(env: Env, datastores: seq<string>, w: World, node: string)
      returns (apis: seq<Attempt>, sshs: seq<Attempt>)
    requires node in env.vmids && CleanNode(env, true, datastores, w, node).lines.Some?
    ensures var orphans, o := Orphans(env, w.store, node, datastores), CleanNode(env, true, datastores, w, node);
            && o.world.log == w.log + apis + sshs
            && WellLogged(env, |w.log|, orphans, apis, sshs, false)
            && |o.lines.value| >= 1 && o.lines.value[0] == Found(|orphans|, node)
            && TrueLines(o.lines.value[1..], orphans, apis, sshs)
  {
    var orphans := Orphans(env, w.store, node, datastores);
    FirstsDistinct(AllOrphans(env, w.store, node, datastores));
    apis, sshs := RemovalAccount(env, w, orphans);
    var errors := Removal(env, w, orphans).stage.errors;
    ReportIsTrue(orphans, errors, apis, sshs);
    assert ([Found(|orphans|, node)] + Report(orphans, true, errors))[1..] == Report(orphans, true, errors);
  }

  // ----- The whole run's books, volume by volume -----

  ghost function Tally<T>(p: T -> bool, xs: seq<T>): nat {
    if xs == [] then 0 else Tally(p, xs[..|xs| - 1]) + if p(xs[|xs| - 1]) then 1 else 0
  }

  lemma {:induction false} TallyAppend<T>(p: T -> bool, a: seq<T>, b: seq<T>)
    ensures Tally(p, a + b) == Tally(p, a) + Tally(p, b)
  {
    if b == [] {
      assert a + b == a;
    } else {
      TallyAppend(p, a, b[..|b| - 1]);
      assert (a + b)[..|a + b| - 1] == a + b[..|b| - 1];
    }
  }

  lemma {:induction false} TallyZero<T(!new)>(p: T -> bool, xs: seq<T>)
    ensures Tally(p, xs) == 0 <==> forall x | x in xs :: !p(x)
  {
    if xs != [] {
      TallyZero(p, xs[..|xs| - 1]);
      assert xs == xs[..|xs| - 1] + [xs[|xs| - 1]];
    }
  }

  /** Entries that stand for distinct keys: one of them is for `key` if it is among the keys, none otherwise. */
  lemma {:induction false} TallyKeyed<T(!new)>(p: T -> bool, xs: seq<T>, keys: seq<Key>, key: Key)
    requires |xs| == |keys| && NoRepeats(keys)
    requires forall i | 0 <= i < |xs| :: p(xs[i]) <==> keys[i] == key
    ensures Tally(p, xs) == if key in keys then 1 else 0
  {
    if xs != [] {
      var last := |xs| - 1;
      TallyKeyed(p, xs[..last], keys[..last], key);
      assert keys == keys[..last] + [keys[last]];
      assert keys[last] !in keys[..last];
    }
  }

  ghost function ApiOf(key: Key): Attempt -> bool {
    (a: Attempt) => a.Api? && a.key == key
  }

  ghost function SshOf(key: Key): Attempt -> bool {
    (a: Attempt) => a.Ssh? && a.key == key
  }

  ghost function LineOf(key: Key): Line -> bool {
    (l: Line) => !l.Found? && l.key == key
  }

  /** On this node an SSH attempt, made when so many attempts were logged, found pexpect missing. */
  ghost predicate GaveUp(env: Env, node: string, from: nat, to: nat) {
    exists n: nat, k: Key :: from <= n <= to && k.node == node && env.ssh(n, k).NoPexpect?
  }

  /** The books on one volume, when `from` attempts were made before. If it was an orphan: one API attempt; one SSH
      attempt exactly if that failed and there is a fallback, unless the node gave up; and one line, which says
      removed exactly if an attempt succeeded. Otherwise nothing. */
  ghost predicate Accounted(env: Env, from: nat, key: Key, orphan: bool, attempts: seq<Attempt>, lines: seq<Line>) {
    && Tally(ApiOf(key), attempts) == (if orphan then 1 else 0)
    && Tally(SshOf(key), attempts) <= (if ApiFailed(attempts, key) && env.fallback then 1 else 0)
    && (ApiFailed(attempts, key) && env.fallback && Tally(SshOf(key), attempts) == 0 ==>
          GaveUp(env, key.node, from, from + |attempts|))
    && Tally(LineOf(key), lines) == (if orphan then 1 else 0)
    && (orphan ==> (Removed(key) in lines <==> Succeeded(attempts, key)))
  }

  /** After the header, one true line per orphan: a key's only line is the one of its place. */
  lemma LinesAccounted(orphans: seq<Key>, apis: seq<Attempt>, sshs: seq<Attempt>, lines: seq<Line>, key: Key)
    requires NoRepeats(orphans) && lines != [] && lines[0].Found? && TrueLines(lines[1..], orphans, apis, sshs)
    ensures Tally(LineOf(key), lines) == if key in orphans then 1 else 0
    ensures key in orphans ==> (Removed(key) in lines <==> Succeeded(apis, key) || Succeeded(sshs, key))
  {
    var header, rest := lines[..1], lines[1..];
    assert lines == header + rest;
    forall i | 0 <= i < |rest| ensures !rest[i].Found? && rest[i].key == orphans[i] {
      assert LineFor(rest[i], orphans[i], apis, sshs);
    }
    TallyKeyed(LineOf(key), rest, orphans, key);
    TallyAppend(LineOf(key), header, rest);
    TallyZero(LineOf(key), header);
    if key in orphans {
      var i :| 0 <= i < |orphans| && orphans[i] == key;
      assert rest[i] in lines && LineFor(rest[i], key, apis, sshs);
    }
  }

  lemma NodeAccounted(env: Env, from: nat, orphans: seq<Key>, apis: seq<Attempt>, sshs: seq<Attempt>,
                      lines: seq<Line>, node: string, key: Key)
    requires NoRepeats(orphans) && WellLogged(env, from, orphans, apis, sshs, false)
    requires forall k | k in orphans :: k.node == node
    requires lines != [] && lines[0].Found? && TrueLines(lines[1..], orphans, apis, sshs)
    ensures Accounted(env, from, key, key in orphans, apis + sshs, lines)
  {
    AttemptsAccounted(env, from, orphans, apis, sshs, node, key);
    LinesAccounted(orphans, apis, sshs, lines, key);
  }

  lemma {:induction false} FailedKeysMember(orphans: seq<Key>, apis: seq<Attempt>)
    requires NoRepeats(orphans) && |apis| == |orphans|
    requires forall i | 0 <= i < |orphans| :: apis[i].Api? && apis[i].key == orphans[i]
    ensures forall k :: k in FailedKeys(apis) <==> ApiFailed(apis, k)
    ensures forall k | k in FailedKeys(apis) :: k in orphans
    ensures NoRepeats(FailedKeys(apis))
  {
    if apis != [] {
      var init, a := apis[..|apis| - 1], apis[|apis| - 1];
      assert apis == init + [a] && orphans == orphans[..|orphans| - 1] + [a.key];
      FailedKeysMember(orphans[..|orphans| - 1], init);
      assert a.key !in orphans[..|orphans| - 1];
      forall k ensures ApiFailed(apis, k) <==> ApiFailed(init, k) || (k == a.key && a.error != "") {
      }
    }
  }

  lemma AttemptsAccounted(env: Env, from: nat, orphans: seq<Key>, apis: seq<Attempt>, sshs: seq<Attempt>,
                          node: string, key: Key)
    requires NoRepeats(orphans) && WellLogged(env, from, orphans, apis, sshs, false)
    requires forall k | k in orphans :: k.node == node
    ensures var attempts := apis + sshs;
            && Tally(ApiOf(key), attempts) == (if key in orphans then 1 else 0)
            && Tally(SshOf(key), attempts) <= (if ApiFailed(attempts, key) && env.fallback then 1 else 0)
            && (ApiFailed(attempts, key) && env.fallback && Tally(SshOf(key), attempts) == 0 ==>
                  GaveUp(env, key.node, from, from + |attempts|))
            && (Succeeded(attempts, key) <==> Succeeded(apis, key) || Succeeded(sshs, key))
  {
    hide SaysDeleted, SaysFreed, ApiTold, SshTold, Tally, FailedKeys;
    TallyAppend(ApiOf(key), apis, sshs);
    TallyAppend(SshOf(key), apis, sshs);
    TallyKeyed(ApiOf(key), apis, orphans, key);
    TallyZero(ApiOf(key), sshs);
    TallyZero(SshOf(key), apis);
    TallyZero(SshOf(key), sshs);
    FailedKeysMember(orphans, apis);
    assert ApiFailed(apis + sshs, key) <==> ApiFailed(apis, key);
    RetriedOrGaveUp(env, from, orphans, FailedKeys(apis), sshs, node, key);
  }

  /** Of the failures, in order, those up to where the attempts stopped were retried once. */
  lemma RetriedOrGaveUp(env: Env, from: nat, orphans: seq<Key>, failed: seq<Key>, sshs: seq<Attempt>, node: string,
                        key: Key)
    requires NoRepeats(failed) && forall k | k in failed :: k.node == node
    requires |sshs| <= |failed| && forall j | 0 <= j < |sshs| :: sshs[j].Ssh? && sshs[j].key == failed[j]
    requires env.fallback && |sshs| < |failed| ==> env.ssh(from + |orphans| + |sshs|, failed[|sshs|]).NoPexpect?
    ensures Tally(SshOf(key), sshs) <= if key in failed then 1 else 0
    ensures key in failed && env.fallback && Tally(SshOf(key), sshs) == 0 ==>
              GaveUp(env, key.node, from, from + |orphans| + |sshs|)
  {
    hide Tally;
    TallyKeyed(SshOf(key), sshs, failed[..|sshs|], key);
    assert failed == failed[..|sshs|] + failed[|sshs|..];
    if key in failed && key !in failed[..|sshs|] {
      assert failed[|sshs|] in failed;
    }
  }

  /** A volume that is no orphan has no attempt and no line. */
  lemma NotAccounted(env: Env, from: nat, key: Key, attempts: seq<Attempt>, lines: seq<Line>)
    requires Accounted(env, from, key, false, attempts, lines)
    ensures forall a | a in attempts :: a.key != key
    ensures Removed(key) !in lines && Tally(SshOf(key), attempts) == 0
  {
    TallyZero(ApiOf(key), attempts);
    TallyZero(SshOf(key), attempts);
    TallyZero(LineOf(key), lines);
    forall a | a in attempts ensures a.key != key {
      assert !ApiOf(key)(a) && !SshOf(key)(a);
    }
    assert !LineOf(key)(Removed(key)) ==> false;
  }

  /** Books of two passes add up, for a volume that was an orphan in at most one of them. */
  lemma AccountsAdd(env: Env, from: nat, key: Key, one: bool, two: bool, a: seq<Attempt>, b: seq<Attempt>,
                    m: seq<Line>, n: seq<Line>)
    requires Accounted(env, from, key, one, a, m) && Accounted(env, from + |a|, key, two, b, n) && !(one && two)
    ensures Accounted(env, from, key, one || two, a + b, m + n)
  {
    TallyAppend(ApiOf(key), a, b);
    TallyAppend(SshOf(key), a, b);
    TallyAppend(LineOf(key), m, n);
    if !one {
      NotAccounted(env, from, key, a, m);
    }
    if !two {
      NotAccounted(env, from + |a|, key, b, n);
    }
    assert ApiFailed(a + b, key) <==> ApiFailed(a, key) || ApiFailed(b, key);
    assert Succeeded(a + b, key) <==> Succeeded(a, key) || Succeeded(b, key);
    GaveUpLater(env, key.node, from, from + |a|, from + |a| + |b|);
  }

  lemma GaveUpLater(env: Env, node: string, from: nat, mid: nat, to: nat)
    requires from <= mid <= to
    ensures GaveUp(env, node, from, mid) || GaveUp(env, node, mid, to) ==> GaveUp(env, node, from, to)
  {
  }

  lemma AppendAssoc<T>(a: seq<T>, b: seq<T>, c: seq<T>)
    ensures a + b + c == a + (b + c)
  {
  }

  lemma NodeBooks(env: Env, datastores: seq<string>, w: World, node: string, key: Key) returns (attempts: seq<Attempt>)
    requires node in env.vmids && CleanNode(env, true, datastores, w, node).lines.Some?
    ensures var o := CleanNode(env, true, datastores, w, node);
            && o.world.log == w.log + attempts
            && Accounted(env, |w.log|, key, key in Orphans(env, w.store, node, datastores), attempts, o.lines.value)
  {
    var apis, sshs := NodeAccount(env, datastores, w, node);
    FirstsDistinct(AllOrphans(env, w.store, node, datastores));
    forall k | k in Orphans(env, w.store, node, datastores) ensures k.node == node {
      OrphansExact(env, w.store, node, datastores, k);
    }
    NodeAccounted(env, |w.log|, Orphans(env, w.store, node, datastores), apis, sshs,
                  CleanNode(env, true, datastores, w, node).lines.value, node, key);
    AppendAssoc(w.log, apis, sshs);
    attempts := apis + sshs;
  }

  ghost predicate InitialOrphan(env: Env, store: Store, nodes: seq<string>, datastores: seq<string>, key: Key) {
    key.node in nodes && key.node in env.vmids && key in Orphans(env, store, key.node, datastores)
  }

  lemma InitialOrphanStep(env: Env, store: Store, init: seq<string>, node: string, datastores: seq<string>, key: Key)
    requires node !in init && node in env.vmids
    ensures var first := InitialOrphan(env, store, init, datastores, key);
            var here := key in Orphans(env, store, node, datastores);
            !(first && here) && (InitialOrphan(env, store, init + [node], datastores, key) <==> first || here)
  {
    OrphansExact(env, store, node, datastores, key);
  }

  /** The passes over other nodes leave a node's orphans as they were. */
  lemma LaterNodeSame(env: Env, datastores: seq<string>, w: World, init: seq<string>, node: string)
    requires node !in init && node in env.vmids
    ensures Orphans(env, Clean(env, true, datastores, w, init).world.store, node, datastores) ==
            Orphans(env, w.store, node, datastores)
  {
    var gone := CleanSound(env, true, datastores, w, init);
    OtherNodesSame(env, w.store, gone, node, datastores);
  }

  /** The whole run: every volume that was an orphan of a visited node at the start has exactly one API attempt;
      exactly one SSH attempt if that failed and there is a fallback, unless its node gave up on SSH for want of
      pexpect; and exactly one line, which is true. No other volume has any. */
  lemma {:induction false} RunAccount(env: Env, datastores: seq<string>, w: World, nodes: seq<string>, key: Key)
      returns (attempts: seq<Attempt>)
    requires NoRepeats(nodes) && Clean(env, true, datastores, w, nodes).lines.Some?
    ensures var o := Clean(env, true, datastores, w, nodes);
            && o.world.log == w.log + attempts
            && Accounted(env, |w.log|, key, InitialOrphan(env, w.store, nodes, datastores, key), attempts,
                         o.lines.value)
  {
    attempts := [];
    if nodes != [] {
      var init, node := nodes[..|nodes| - 1], nodes[|nodes| - 1];
      var before := Clean(env, true, datastores, w, init);
      var here := CleanNode(env, true, datastores, before.world, node);
      assert nodes == init + [node];
      CleanSnoc(env, true, datastores, w, init, node);
      attempts := RunAccount(env, datastores, w, init, key);
      var more := NodeBooks(env, datastores, before.world, node, key);
      LaterNodeSame(env, datastores, w, init, node);
      InitialOrphanStep(env, w.store, init, node, datastores, key);
      AccountsAdd(env, |w.log|, key, InitialOrphan(env, w.store, init, datastores, key),
                  key in Orphans(env, w.store, node, datastores),
                  attempts, more, before.lines.value, here.lines.value);
      AppendAssoc(w.log, attempts, more);
      attempts := attempts + more;
    }
  }
}
