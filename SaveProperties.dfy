/** What the conditional-save protocol guarantees, proved about PutSpec and GetSpec. */
module SaveProperties {
  import opened Wrappers
  import opened Hex
  import opened Etags
  import opened Http
  import opened Dispatch
  import opened Protocol

  /** A PUT answers 200, 412 or 500, and 200 exactly when every step succeeds. */
  lemma PutStatus(st: State, cfg: Config, body: Bytes, ifMatch: string, env: PutEnv)
    ensures var r := PutSpec(st, cfg, body, ifMatch, env).1;
            r.status in {StatusOK, StatusPreconditionFailed, StatusInternalServerError}
            && (r.status == StatusOK <==>
                  env.stage == Staged && Admitted(st, ifMatch) && ArchiveSucceeds(st, cfg, env)
                  && !env.renameFails && CompressSucceeds(cfg, env))
            && (r.status == StatusPreconditionFailed <==> env.stage == Staged && !Admitted(st, ifMatch))
  {
  }

  /** A staging failure answers 500 before any shared state is touched (putter.go:225-248). */
  lemma PutStagingFailureChangesNothing(st: State, cfg: Config, body: Bytes, ifMatch: string, env: PutEnv)
    requires env.stage != Staged
    ensures PutSpec(st, cfg, body, ifMatch, env) == (st, Status(StatusInternalServerError))
  {
  }

  /**
   * A non-empty If-Match that differs from the current ETag answers 412 and
   * changes nothing: not the document, the ETag, the archive or the ".gz"
   * file (putter.go:253-258).
   */
  lemma PutConflictChangesNothing(st: State, cfg: Config, body: Bytes, ifMatch: string, env: PutEnv)
    requires env.stage == Staged && ifMatch != "" && ifMatch != st.etag
    ensures PutSpec(st, cfg, body, ifMatch, env) == (st, Status(StatusPreconditionFailed))
  {
  }

  /**
   * An admitted PUT that meets no failure answers 200 with the new ETag, and
   * afterwards the document is the body, the ETag is the quoted hex of its
   * digest, the archive has gained the previous document under the given
   * name (when archiving is on) and the ".gz" file holds the compressed body
   * (when compression is on).
   */
  lemma PutSucceeds(st: State, cfg: Config, body: Bytes, ifMatch: string, env: PutEnv)
    requires env.stage == Staged && Admitted(st, ifMatch)
    requires ArchiveSucceeds(st, cfg, env) && !env.renameFails && CompressSucceeds(cfg, env)
    ensures var (after, resp) := PutSpec(st, cfg, body, ifMatch, env);
            var e := Etag(cfg.digest(body));
            && resp == Response(StatusOK, map[HeaderEtag := e], [])
            && after.doc == body
            && after.etag == e
            && after.archive == (if cfg.isArchive then st.archive[env.stamp := st.doc] else st.archive)
            && after.gz == (if cfg.isCompress then Some(cfg.gzip(body)) else st.gz)
  {
  }

  /** An archive failure answers 500 and leaves the document, the ETag and the ".gz" file as they were. */
  lemma PutArchiveFailure(st: State, cfg: Config, body: Bytes, ifMatch: string, env: PutEnv)
    requires env.stage == Staged && Admitted(st, ifMatch) && !ArchiveSucceeds(st, cfg, env)
    ensures var (after, resp) := PutSpec(st, cfg, body, ifMatch, env);
            resp == Status(StatusInternalServerError)
            && after.doc == st.doc && after.etag == st.etag && after.gz == st.gz
  {
  }

  /**
   * A failed rename answers 500 and leaves the document, the ETag and the
   * ".gz" file as they were; the archive entry just written stays.
   */
  lemma PutRenameFailure(st: State, cfg: Config, body: Bytes, ifMatch: string, env: PutEnv)
    requires env.stage == Staged && Admitted(st, ifMatch) && ArchiveSucceeds(st, cfg, env) && env.renameFails
    ensures var (after, resp) := PutSpec(st, cfg, body, ifMatch, env);
            resp == Status(StatusInternalServerError)
            && after.doc == st.doc && after.etag == st.etag && after.gz == st.gz
            && after.archive == (if cfg.isArchive then st.archive[env.stamp := st.doc] else st.archive)
  {
  }

  /**
   * A compression failure answers 500 although the new document is already
   * in place; the ETag stays the old one (putter.go:267-279).
   */
  lemma PutCompressFailure(st: State, cfg: Config, body: Bytes, ifMatch: string, env: PutEnv)
    requires env.stage == Staged && Admitted(st, ifMatch) && ArchiveSucceeds(st, cfg, env) && !env.renameFails
    requires !CompressSucceeds(cfg, env)
    ensures var (after, resp) := PutSpec(st, cfg, body, ifMatch, env);
            resp == Status(StatusInternalServerError) && after.doc == body && after.etag == st.etag
  {
  }

  /**
   * The ETag changes only on the success path, and a 200 reports the ETag
   * now held (putter.go:281-283).
   */
  lemma PutEtagOnlyOnSuccess(st: State, cfg: Config, body: Bytes, ifMatch: string, env: PutEnv)
    ensures var (after, resp) := PutSpec(st, cfg, body, ifMatch, env);
            (resp.status != StatusOK ==> after.etag == st.etag)
            && (resp.status == StatusOK ==> after.etag == Etag(cfg.digest(body))
                                              && HeaderEtag in resp.header && resp.header[HeaderEtag] == after.etag)
  {
  }

  /** Archive entries are never removed, and an existing entry under another name is never altered. */
  lemma PutKeepsHistory(st: State, cfg: Config, body: Bytes, ifMatch: string, env: PutEnv)
    ensures var after := PutSpec(st, cfg, body, ifMatch, env).0;
            && st.archive.Keys <= after.archive.Keys
            && after.archive.Keys <= st.archive.Keys + {env.stamp}
            && forall k :: k in st.archive && k != env.stamp ==> after.archive[k] == st.archive[k]
  {
  }

  /**
   * A PUT keeps the server coherent (the ETag is that of the live document,
   * and the ".gz" file its compression) unless it got as far as compressing,
   * and compression failed: then the body is live and the answer is 500.
   */
  lemma PutPreservesCoherence(st: State, cfg: Config, body: Bytes, ifMatch: string, env: PutEnv)
    requires Coherent(st, cfg)
    ensures var (after, resp) := PutSpec(st, cfg, body, ifMatch, env);
            Coherent(after, cfg)
            || (env.stage == Staged && Admitted(st, ifMatch) && ArchiveSucceeds(st, cfg, env) && !env.renameFails
                && !CompressSucceeds(cfg, env) && after.doc == body && resp.status == StatusInternalServerError)
  {
  }

  /**
   * A compression failure after promotion breaks coherence: the live
   * document is the new body but the ETag still names the old one, so a
   * later GET pairs the new bytes with the old validator.
   */
  lemma CompressFailureLeavesStaleEtag(st: State, cfg: Config, body: Bytes, ifMatch: string, env: PutEnv)
    requires env.stage == Staged && Admitted(st, ifMatch) && ArchiveSucceeds(st, cfg, env) && !env.renameFails
    requires !CompressSucceeds(cfg, env)
    requires EtagCurrent(st, cfg) && cfg.digest(body) != cfg.digest(st.doc)
    ensures !EtagCurrent(PutSpec(st, cfg, body, ifMatch, env).0, cfg)
  {
    EtagInjective(cfg.digest(body), cfg.digest(st.doc));
  }

  /**
   * GET on a coherent server: a 200 either carries the live document with
   * the ETag of its digest, or the compressed live document.
   */
  lemma GetCoherent(st: State, cfg: Config, acceptEncoding: string, openFails: bool, statFails: bool)
    requires Coherent(st, cfg)
    ensures var r := GetSpec(st, cfg.isCompress, acceptEncoding, openFails, statFails);
            r.status == StatusOK ==>
              r.header[HeaderEtag] == Etag(cfg.digest(st.doc))
              && r.body == (if SelectVariant(cfg.isCompress, acceptEncoding) == ExtensionGzip then cfg.gzip(st.doc) else st.doc)
  {
  }

  /** A PUT with every step succeeding and the archive file name given. */
  function CleanPut(stamp: string): (env: PutEnv) {
    PutEnv(stamp, Staged, false, ArchiveOk, false, CompressOk)
  }

  /**
   * The two-save scenario: from document v1 a PUT of v2 with v1's ETag
   * succeeds and archives v1; a second PUT, of v3 with the now stale v1
   * ETag, is refused with 412 and leaves v2, its ETag and the single
   * archive entry in place. Requires only that v1 and v2 have different digests.
   */
  lemma StaleTokenScenario(cfg: Config, v1: Bytes, v2: Bytes, v3: Bytes, stamp1: string, stamp2: string)
    requires cfg.isArchive && cfg.digest(v1) != cfg.digest(v2)
    ensures var f1 := Etag(cfg.digest(v1));
            var f2 := Etag(cfg.digest(v2));
            var st0 := State(v1, None, map[], true, f1);
            var (st1, r1) := PutSpec(st0, cfg, v2, f1, CleanPut(stamp1));
            var (st2, r2) := PutSpec(st1, cfg, v3, f1, CleanPut(stamp2));
            && r1.status == StatusOK && r1.header[HeaderEtag] == f2
            && st1.doc == v2 && st1.etag == f2 && st1.archive == map[stamp1 := v1]
            && r2.status == StatusPreconditionFailed
            && st2 == st1
  {
    EtagInjective(cfg.digest(v1), cfg.digest(v2));
  }

  /** One unconditional PUT in which every step succeeds; the new state. */
  function Save(st: State, cfg: Config, body: Bytes, stamp: string): (r: State)
    requires cfg.isArchive
    ensures r.doc == body && r.archive == st.archive[stamp := st.doc]
  {
    PutSucceeds(st, cfg, body, "", CleanPut(stamp));
    PutSpec(st, cfg, body, "", CleanPut(stamp)).0
  }

  /** A run of unconditional PUTs that all succeed, one archive name per body. */
  function RunPuts(st: State, cfg: Config, bodies: seq<Bytes>, stamps: seq<string>): (fin: State)
    requires cfg.isArchive && |bodies| == |stamps|
    decreases |bodies|
  {
    if bodies == [] then st
    else RunPuts(Save(st, cfg, bodies[0], stamps[0]), cfg, bodies[1..], stamps[1..])
  }

  /** The document live just before the i-th save of a run. */
  function Prior(first: Bytes, bodies: seq<Bytes>, i: int): (prior: Bytes)
    requires 0 <= i < |bodies|
  {
    if i == 0 then first else bodies[i - 1]
  }

  /** The names a run archives under. */
  function Names(stamps: seq<string>): (names: set<string>) {
    set i | 0 <= i < |stamps| :: stamps[i]
  }

  /** The names of a run are its first name and the names of the rest. */
  lemma NamesCons(stamps: seq<string>)
    requires stamps != []
    ensures Names(stamps) == {stamps[0]} + Names(stamps[1..])
  {
  }

  /** The one prerequisite of a run: its archive names are distinct and not yet taken. */
  ghost predicate FreshNames(archive: map<string, Bytes>, stamps: seq<string>) {
    && (forall i, j :: 0 <= i < j < |stamps| ==> stamps[i] != stamps[j])
    && (forall i :: 0 <= i < |stamps| ==> stamps[i] !in archive)
  }

  /** After the first save of a run, the rest of the run still has fresh names. */
  lemma FreshNamesTail(st: State, cfg: Config, body: Bytes, stamps: seq<string>)
    requires cfg.isArchive && stamps != [] && FreshNames(st.archive, stamps)
    ensures FreshNames(Save(st, cfg, body, stamps[0]).archive, stamps[1..])
  {
  }

  /** After N successful saves under N fresh, distinct names, the archive holds exactly N more entries. */
  lemma {:induction false} RunPutsCount(st: State, cfg: Config, bodies: seq<Bytes>, stamps: seq<string>)
    requires cfg.isArchive && |bodies| == |stamps| && FreshNames(st.archive, stamps)
    ensures |RunPuts(st, cfg, bodies, stamps).archive| == |st.archive| + |bodies|
    decreases |bodies|
  {
    if bodies != [] {
      var next := Save(st, cfg, bodies[0], stamps[0]);
      FreshNamesTail(st, cfg, bodies[0], stamps);
      RunPutsCount(next, cfg, bodies[1..], stamps[1..]);
      assert |next.archive| == |st.archive| + 1;
    }
  }

  /** The names the archive gains in a run of saves are exactly the run's names. */
  lemma {:induction false} RunPutsNames(st: State, cfg: Config, bodies: seq<Bytes>, stamps: seq<string>)
    requires cfg.isArchive && |bodies| == |stamps| && FreshNames(st.archive, stamps)
    ensures RunPuts(st, cfg, bodies, stamps).archive.Keys == st.archive.Keys + Names(stamps)
    decreases |bodies|
  {
    if bodies != [] {
      var next := Save(st, cfg, bodies[0], stamps[0]);
      FreshNamesTail(st, cfg, bodies[0], stamps);
      RunPutsNames(next, cfg, bodies[1..], stamps[1..]);
      NamesCons(stamps);
    }
  }

  /** After a run of saves the live document is the last body. */
  lemma {:induction false} RunPutsLastDoc(st: State, cfg: Config, bodies: seq<Bytes>, stamps: seq<string>)
    requires cfg.isArchive && |bodies| == |stamps|
    ensures RunPuts(st, cfg, bodies, stamps).doc == if bodies == [] then st.doc else bodies[|bodies| - 1]
    decreases |bodies|
  {
    if bodies != [] {
      RunPutsLastDoc(Save(st, cfg, bodies[0], stamps[0]), cfg, bodies[1..], stamps[1..]);
    }
  }

  /** Entries that existed before a run of saves under fresh names are left as they were. */
  lemma {:induction false} RunPutsKeepsOlderEntries(st: State, cfg: Config, bodies: seq<Bytes>, stamps: seq<string>, k: string)
    requires cfg.isArchive && |bodies| == |stamps| && FreshNames(st.archive, stamps)
    requires k in st.archive
    ensures var fin := RunPuts(st, cfg, bodies, stamps);
            k in fin.archive && fin.archive[k] == st.archive[k]
    decreases |bodies|
  {
    if bodies != [] {
      var next := Save(st, cfg, bodies[0], stamps[0]);
      FreshNamesTail(st, cfg, bodies[0], stamps);
      RunPutsKeepsOlderEntries(next, cfg, bodies[1..], stamps[1..], k);
    }
  }

  /** Each of the N entries holds the document that was live just before its save. */
  lemma {:induction false} RunPutsArchivesEachPriorVersion(st: State, cfg: Config, bodies: seq<Bytes>, stamps: seq<string>, i: int)
    requires cfg.isArchive && |bodies| == |stamps| && FreshNames(st.archive, stamps)
    requires 0 <= i < |bodies|
    ensures var fin := RunPuts(st, cfg, bodies, stamps);
            stamps[i] in fin.archive && fin.archive[stamps[i]] == Prior(st.doc, bodies, i)
    decreases |bodies|
  {
    var next := Save(st, cfg, bodies[0], stamps[0]);
    FreshNamesTail(st, cfg, bodies[0], stamps);
    if i == 0 {
      RunPutsKeepsOlderEntries(next, cfg, bodies[1..], stamps[1..], stamps[0]);
    } else {
      RunPutsArchivesEachPriorVersion(next, cfg, bodies[1..], stamps[1..], i - 1);
      assert stamps[1..][i - 1] == stamps[i];
    }
  }
}
