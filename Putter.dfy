/**
 * The server object: its configuration, its ETag, and the files it owns,
 * updated in place by the PUT pipeline. Each request runs atomically (the
 * read/write lock is not modelled), and every method is proved against the
 * specification functions of module Protocol.
 */
module Putter {
  import opened Wrappers
  import opened Hex
  import opened Etags
  import opened Http
  import opened Dispatch
  import opened Protocol

  class Server {
    // configuration (putter.go:110-114)
    const fileName: string
    const archiveDirName: string
    const archiveFormat: string
    const isArchive: bool
    const isCompress: bool
    // MD5 and best-compression gzip, left uninterpreted
    const digest: Bytes -> Bytes
    const gzip: Bytes -> Bytes

    // the ETag of the live wiki (putter.go:109)
    var etag: string
    // the filesystem the server works on: the wiki file, fileName + ".gz",
    // and the archive directory with its files by name
    var doc: Bytes
    var gz: Option<Bytes>
    var archiveDir: bool
    var archive: map<string, Bytes>

    /** The server's state as a value. */
    function Snapshot(): State
      reads this
    {
      State(doc, gz, archive, archiveDir, etag)
    }

    function Cfg(): Config
    {
      Config(isArchive, isCompress, digest, gzip)
    }

    /**
     * The struct literal of newServer (putter.go:122-128). As in the source,
     * the compression flag is copied from the archive flag; the isCompress
     * argument is not used.
     */
    constructor Init(fileName: string, archiveDirName: string, archiveFormat: string,
                     isArchive: bool, isCompress: bool,
                     digest: Bytes -> Bytes, gzip: Bytes -> Bytes,
                     doc: Bytes, gz: Option<Bytes>, archiveDir: bool, archive: map<string, Bytes>)
      ensures this.fileName == fileName && this.archiveDirName == archiveDirName && this.archiveFormat == archiveFormat
      ensures this.isArchive == isArchive && this.isCompress == isArchive
      ensures this.digest == digest && this.gzip == gzip
      ensures this.doc == doc && this.gz == gz && this.archiveDir == archiveDir && this.archive == archive
      ensures etag == ""
    {
      this.fileName := fileName;
      this.archiveDirName := archiveDirName;
      this.archiveFormat := archiveFormat;
      this.isArchive := isArchive;
      this.isCompress := isArchive;
      this.digest := digest;
      this.gzip := gzip;
      this.doc := doc;
      this.gz := gz;
      this.archiveDir := archiveDir;
      this.archive := archive;
      etag := "";
    }

    /**
     * newServer (putter.go:117-149): reads and hashes the wiki file, sets the
     * ETag, and writes the ".gz" file. Where the source calls log.Fatal (the
     * wiki missing or unreadable, compression failing) the result is None.
     */
    static method NewServer(fileName: string, archiveDirName: string, archiveFormat: string,
                            isArchive: bool, isCompress: bool,
                            digest: Bytes -> Bytes, gzip: Bytes -> Bytes,
                            wiki: Option<Bytes>, gz: Option<Bytes>, archiveDir: bool, archive: map<string, Bytes>,
                            readFails: bool, compress: CompressFault)
      returns (s: Option<Server>)
      ensures s.None? <==> wiki.None? || readFails || (isArchive && compress != CompressOk)
      ensures s.Some? ==> fresh(s.value)
      ensures s.Some? ==> s.value.fileName == fileName && s.value.archiveDirName == archiveDirName
                          && s.value.archiveFormat == archiveFormat
      ensures s.Some? ==> s.value.digest == digest && s.value.gzip == gzip
      ensures s.Some? ==> s.value.isArchive == isArchive && s.value.isCompress == isArchive
      ensures s.Some? ==> s.value.doc == wiki.value && s.value.etag == Etag(digest(wiki.value))
      ensures s.Some? ==> s.value.archive == archive && s.value.archiveDir == archiveDir
      ensures s.Some? ==> s.value.gz == (if isArchive then Some(gzip(wiki.value)) else gz)
      ensures s.Some? ==> Coherent(s.value.Snapshot(), s.value.Cfg())
    {
      if wiki.None? || readFails {
        return None;
      }
      var srv := new Server.Init(fileName, archiveDirName, archiveFormat, isArchive, isCompress,
                                 digest, gzip, wiki.value, gz, archiveDir, archive);
      srv.SetEtagFromHash(digest(wiki.value));
      var ok := srv.CompressWiki(compress);
      if !ok {
        return None;
      }
      return Some(srv);
    }

    /** setEtagFromHash (putter.go:348-351): the ETag becomes the quoted lowercase hex of the digest. */
    method SetEtagFromHash(sum: Bytes)
      modifies this`etag
      ensures etag == Etag(sum)
    {
      etag := Etag(sum);
    }

    /** archiveWiki (putter.go:321-346); `stamp` is the formatted time that names the archive file. */
    method ArchiveWiki(stamp: string, mkdirFails: bool, fault: ArchiveFault) returns (ok: bool)
      modifies this`archive, this`archiveDir
      ensures (Snapshot(), ok) == ArchiveStep(old(Snapshot()), isArchive, stamp, mkdirFails, fault)
    {
      if !isArchive {
        return true;
      }
      // os.Mkdir; its error is ignored
      if !archiveDir && !mkdirFails {
        archiveDir := true;
      }
      // os.Open of the live wiki
      if fault == ArchiveOpenFails {
        return false;
      }
      // os.Create in the archive directory
      if !archiveDir || fault == ArchiveCreateFails {
        return false;
      }
      // io.Copy
      if fault.ArchiveCopyFails? {
        var n := if fault.copied < |doc| then fault.copied else |doc|;
        archive := archive[stamp := doc[..n]];
        return false;
      }
      archive := archive[stamp := doc];
      return true;
    }

    /** compressWiki (putter.go:288-319). */
    method CompressWiki(fault: CompressFault) returns (ok: bool)
      modifies this`gz
      ensures (Snapshot(), ok) == CompressStep(old(Snapshot()), isCompress, gzip, fault)
    {
      if !isCompress {
        return true;
      }
      match fault {
        case CompressOpenFails =>
          return false;
        case CompressCreateFails =>
          return false;
        case CompressCopyFails(written) =>
          gz := Some(written);
          return false;
        case CompressOk =>
          gz := Some(gzip(doc));
          return true;
      }
    }

    /**
     * handlePut (putter.go:221-286). The upload arrives whole as `body`;
     * `ifMatch` is the If-Match header ("" when absent). The ETag is set last,
     * and only when every step before it succeeded.
     */
    method HandlePut(body: Bytes, ifMatch: string, env: PutEnv) returns (resp: Response)
      modifies this
      ensures (Snapshot(), resp) == PutSpec(old(Snapshot()), Cfg(), body, ifMatch, env)
      ensures resp.status != StatusOK ==> etag == old(etag)
      ensures resp.status == StatusPreconditionFailed ==> unchanged(this)
    {
      // stage the body in a temporary file and hash it
      if env.stage != Staged {
        return Status(StatusInternalServerError);
      }
      var sum := digest(body);
      if ifMatch != "" && ifMatch != etag {
        return Status(StatusPreconditionFailed);
      }
      var ok := ArchiveWiki(env.stamp, env.mkdirFails, env.archive);
      if !ok {
        return Status(StatusInternalServerError);
      }
      // os.Rename of the staged file onto the wiki file
      if env.renameFails {
        return Status(StatusInternalServerError);
      }
      doc := body;
      ok := CompressWiki(env.compress);
      if !ok {
        return Status(StatusInternalServerError);
      }
      SetEtagFromHash(sum);
      return Response(StatusOK, map[HeaderEtag := etag], []);
    }

    /** handleHead (putter.go:171-179): the current ETag, no body. */
    method HandleHead() returns (resp: Response)
      ensures resp.status == StatusOK && resp.body == []
      ensures resp.header == map[HeaderEtag := etag]
    {
      resp := Response(StatusOK, map[HeaderEtag := etag], []);
    }

    /** handleOptions (putter.go:181-186): always 200 with the "Dav: putter" marker; no state is read. */
    method HandleOptions() returns (resp: Response)
      ensures resp.status == StatusOK && resp.body == []
      ensures resp.header == map[HeaderDav := "putter"]
    {
      resp := Response(StatusOK, map[HeaderDav := "putter"], []);
    }

    /**
     * handleGet (putter.go:188-219): `openFails` and `statFails` stand for
     * os.Open and Stat failing on a file that exists.
     */
    method HandleGet(acceptEncoding: string, openFails: bool, statFails: bool) returns (resp: Response)
      ensures resp == GetSpec(Snapshot(), isCompress, acceptEncoding, openFails, statFails)
    {
      var tag := etag;
      var header: Header := map[];
      var extension := SelectVariant(isCompress, acceptEncoding);
      if extension == ExtensionGzip {
        header := header[HeaderContentEncoding := EncodingGzip];
      }
      var file := if extension == ExtensionGzip then gz else Some(doc);
      if file.None? || openFails {
        return Response(StatusInternalServerError, header, []);
      }
      if statFails {
        return Response(StatusInternalServerError, header, []);
      }
      header := header[HeaderEtag := tag];
      resp := Response(StatusOK, header, file.value);
    }

    /**
     * ServeHTTP (putter.go:151-169): routes by path, then by method. Only a
     * PUT on "/" can change the server.
     */
    method ServeHTTP(req: Request, env: Env) returns (resp: Response)
      modifies this
      ensures Route(req.path, req.verb) != ServePut ==> unchanged(this)
      ensures Route(req.path, req.verb) == NotFound ==> resp == Status(StatusNotFound)
      ensures Route(req.path, req.verb) == MethodNotAllowed ==> resp == Status(StatusMethodNotAllowed)
      ensures Route(req.path, req.verb) == ServeHead ==> resp == Response(StatusOK, map[HeaderEtag := etag], [])
      ensures Route(req.path, req.verb) == ServeOptions ==> resp == Response(StatusOK, map[HeaderDav := "putter"], [])
      ensures Route(req.path, req.verb) == ServeGet ==>
                resp == GetSpec(Snapshot(), isCompress, HeaderGet(req.header, HeaderAcceptEncoding), env.openFails, env.statFails)
      ensures Route(req.path, req.verb) == ServePut ==>
                (Snapshot(), resp) == PutSpec(old(Snapshot()), Cfg(), req.body, HeaderGet(req.header, HeaderIfMatch), env.put)
    {
      match Route(req.path, req.verb) {
        case NotFound =>
          resp := Status(StatusNotFound);
        case ServeHead =>
          resp := HandleHead();
        case ServeOptions =>
          resp := HandleOptions();
        case ServeGet =>
          resp := HandleGet(HeaderGet(req.header, HeaderAcceptEncoding), env.openFails, env.statFails);
        case ServePut =>
          resp := HandlePut(req.body, HeaderGet(req.header, HeaderIfMatch), env.put);
        case MethodNotAllowed =>
          resp := Status(StatusMethodNotAllowed);
      }
    }
  }

  /**
   * A GET followed by a HEAD with no PUT between them report the same ETag,
   * and a successful GET sends the bytes the server holds for that ETag.
   */
  method GetThenHead(s: Server, acceptEncoding: string, openFails: bool, statFails: bool)
    returns (get: Response, head: Response)
    ensures head.status == StatusOK && HeaderEtag in head.header
    ensures get.status == StatusOK ==> HeaderEtag in get.header && get.header[HeaderEtag] == head.header[HeaderEtag]
    ensures get.status == StatusOK ==>
              get.body == if SelectVariant(s.isCompress, acceptEncoding) == ExtensionGzip && s.gz.Some? then s.gz.value else s.doc
  {
    get := s.HandleGet(acceptEncoding, openFails, statFails);
    head := s.HandleHead();
  }
}
