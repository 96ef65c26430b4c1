/**
 * The conditional-save protocol as functions on a snapshot of the server's
 * state. Each I/O step that can fail takes its failure as an input (a fault
 * injection), so every outcome of a request is a function of the state
 * before it, the configuration, the request and the faults.
 */
module Protocol {
  import opened Wrappers
  import opened Hex
  import opened Etags
  import opened Http
  import opened Dispatch

  /**
   * What requests can observe or change: the bytes of the live wiki file,
   * its ".gz" sibling (absent until first written), the archive directory
   * (whether it exists, and its files by name) and the current ETag.
   */
  datatype State = State(doc: Bytes, gz: Option<Bytes>, archive: map<string, Bytes>, archiveDir: bool, etag: string)

  /** Fixed at startup. digest stands for MD5 and gzip for best-compression gzip; both are left uninterpreted. */
  datatype Config = Config(isArchive: bool, isCompress: bool, digest: Bytes -> Bytes, gzip: Bytes -> Bytes)

  /** Staging the upload (putter.go:225-248): creating the temp file, copying the body into it, closing it. */
  datatype StageFault = Staged | TempFileFails | BodyCopyFails | TempCloseFails

  /**
   * archiveWiki's steps after Mkdir (putter.go:328-345): opening the live
   * file, creating the archive file, copying. A failed copy leaves the first
   * `copied` bytes of the document in the archive file.
   */
  datatype ArchiveFault = ArchiveOk | ArchiveOpenFails | ArchiveCreateFails | ArchiveCopyFails(copied: nat)

  /**
   * compressWiki's steps (putter.go:294-315): opening the live file,
   * creating the ".gz" file, compressing into it. A failed copy leaves
   * whatever `written` bytes reached the truncated ".gz" file.
   */
  datatype CompressFault = CompressOk | CompressOpenFails | CompressCreateFails | CompressCopyFails(written: Bytes)

  /**
   * Everything outside the server that decides one PUT: the archive file
   * name the clock yields (time.Now formatted with the archive format), and
   * which steps fail. mkdirFails says os.Mkdir could not create a missing
   * archive directory; renameFails that os.Rename could not promote the upload.
   */
  datatype PutEnv = PutEnv(stamp: string, stage: StageFault, mkdirFails: bool, archive: ArchiveFault,
                           renameFails: bool, compress: CompressFault)

  /** The environment of any request: a PUT's, and whether GET's os.Open or Stat fails. */
  datatype Env = Env(put: PutEnv, openFails: bool, statFails: bool)

  /** The server's ETag is the one computed from the live document. */
  predicate EtagCurrent(st: State, cfg: Config) {
    st.etag == Etag(cfg.digest(st.doc))
  }

  /** With compression on, the ".gz" file holds the compressed live document. */
  predicate GzCurrent(st: State, cfg: Config) {
    cfg.isCompress ==> st.gz == Some(cfg.gzip(st.doc))
  }

  predicate Coherent(st: State, cfg: Config) {
    EtagCurrent(st, cfg) && GzCurrent(st, cfg)
  }

  /** The If-Match check of putter.go:253-258 lets the request through. */
  predicate Admitted(st: State, ifMatch: string) {
    ifMatch == "" || ifMatch == st.etag
  }

  /** archiveWiki returns no error. */
  predicate ArchiveSucceeds(st: State, cfg: Config, env: PutEnv) {
    !cfg.isArchive || (env.archive == ArchiveOk && (st.archiveDir || !env.mkdirFails))
  }

  /** compressWiki returns no error. */
  predicate CompressSucceeds(cfg: Config, env: PutEnv) {
    !cfg.isCompress || env.compress == CompressOk
  }

  /**
   * archiveWiki (putter.go:322-346). The error of os.Mkdir is ignored: a
   * failed Mkdir matters only through the os.Create that follows, which
   * fails when the directory is still missing. os.Create overwrites a file
   * of the same name.
   */
  function ArchiveStep(st: State, isArchive: bool, stamp: string, mkdirFails: bool, fault: ArchiveFault): (r: (State, bool))
    ensures r.0.doc == st.doc && r.0.gz == st.gz && r.0.etag == st.etag
    ensures !isArchive ==> r == (st, true)
    ensures isArchive ==> (r.1 <==> fault == ArchiveOk && (st.archiveDir || !mkdirFails))
    ensures isArchive && r.1 ==> r.0.archive == st.archive[stamp := st.doc]
    ensures isArchive && !r.1 ==> (r.0.archive == st.archive || (stamp in r.0.archive && r.0.archive == st.archive[stamp := r.0.archive[stamp]]))
    ensures stamp in r.0.archive && r.0.archive != st.archive ==> r.0.archive[stamp] <= st.doc
    ensures st.archiveDir ==> r.0.archiveDir
  {
    if !isArchive then (st, true)
    else
      var dir := st.archiveDir || !mkdirFails;
      var made := st.(archiveDir := dir);
      if fault == ArchiveOpenFails then (made, false)
      else if !dir || fault == ArchiveCreateFails then (made, false)
      else if fault.ArchiveCopyFails? then
        var n := if fault.copied < |st.doc| then fault.copied else |st.doc|;
        (made.(archive := st.archive[stamp := st.doc[..n]]), false)
      else (made.(archive := st.archive[stamp := st.doc]), true)
  }

  /** compressWiki (putter.go:288-319): rewrites the ".gz" sibling of the live document and touches nothing else. */
  function CompressStep(st: State, isCompress: bool, gzip: Bytes -> Bytes, fault: CompressFault): (r: (State, bool))
    ensures r.0 == st.(gz := r.0.gz)
    ensures !isCompress ==> r == (st, true)
    ensures isCompress ==> (r.1 <==> fault == CompressOk)
    ensures isCompress && r.1 ==> r.0.gz == Some(gzip(st.doc))
    ensures isCompress && fault.CompressCopyFails? ==> r.0.gz == Some(fault.written)
    ensures fault == CompressOpenFails || fault == CompressCreateFails ==> r.0 == st
  {
    if !isCompress then (st, true)
    else match fault
      case CompressOk => (st.(gz := Some(gzip(st.doc))), true)
      case CompressOpenFails => (st, false)
      case CompressCreateFails => (st, false)
      case CompressCopyFails(written) => (st.(gz := Some(written)), false)
  }

  /**
   * handlePut (putter.go:221-286): stage and hash the body; check If-Match;
   * archive the old document; promote the upload by renaming it onto the
   * wiki file; regenerate the ".gz" file; and only then set the new ETag.
   * Each failure stops the sequence where it happened and leaves what the
   * steps before it did.
   */
  function PutSpec(st: State, cfg: Config, body: Bytes, ifMatch: string, env: PutEnv): (r: (State, Response))
    ensures r.1.status == StatusOK || r.1.status == StatusPreconditionFailed || r.1.status == StatusInternalServerError
    ensures r.1.status == StatusPreconditionFailed ==> r.0 == st
  {
    if env.stage != Staged then (st, Status(StatusInternalServerError))
    else if !Admitted(st, ifMatch) then (st, Status(StatusPreconditionFailed))
    else
      var (archived, archiveOk) := ArchiveStep(st, cfg.isArchive, env.stamp, env.mkdirFails, env.archive);
      if !archiveOk then (archived, Status(StatusInternalServerError))
      else if env.renameFails then (archived, Status(StatusInternalServerError))
      else
        var promoted := archived.(doc := body);
        var (compressed, compressOk) := CompressStep(promoted, cfg.isCompress, cfg.gzip, env.compress);
        if !compressOk then (compressed, Status(StatusInternalServerError))
        else
          var e := Etag(cfg.digest(body));
          (compressed.(etag := e), Response(StatusOK, map[HeaderEtag := e], []))
  }

  /**
   * handleGet (putter.go:188-219): the ETag read at entry, and the plain or
   * the gzipped file as SelectVariant decides. Content-Encoding is set
   * before the file is opened, so a failed open still carries it. A missing
   * ".gz" file is a failed open.
   */
  function GetSpec(st: State, isCompress: bool, acceptEncoding: string, openFails: bool, statFails: bool): (r: Response)
    ensures r.status == StatusOK || r.status == StatusInternalServerError
    ensures var gzipped := SelectVariant(isCompress, acceptEncoding) == ExtensionGzip;
            (r.status == StatusOK <==> !openFails && !statFails && (gzipped ==> st.gz.Some?))
            && (r.status == StatusOK ==> r.body == (if gzipped then st.gz.value else st.doc))
            && (HeaderContentEncoding in r.header <==> gzipped)
    ensures r.status == StatusOK ==> HeaderEtag in r.header && r.header[HeaderEtag] == st.etag
    ensures r.status != StatusOK ==> HeaderEtag !in r.header && r.body == []
  {
    var ext := SelectVariant(isCompress, acceptEncoding);
    var encoding: Header := if ext == ExtensionGzip then map[HeaderContentEncoding := EncodingGzip] else map[];
    var file := if ext == ExtensionGzip then st.gz else Some(st.doc);
    if file.None? || openFails || statFails then Response(StatusInternalServerError, encoding, [])
    else Response(StatusOK, encoding[HeaderEtag := st.etag], file.value)
  }
}
