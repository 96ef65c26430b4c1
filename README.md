# putter: a verified model of the conditional-save wiki server

putter serves one TiddlyWiki file over HTTP and accepts full replacements
of it by PUT. A PUT is conditional: the client sends the ETag it last saw in
`If-Match`, and the server refuses the save with 412 when the wiki has
changed since. The ETag is the MD5 digest of the live file, written as
quoted lowercase hex. Before a save overwrites the wiki, the old version is
copied into an archive directory under a name made from the current time.
After the save, a gzip copy of the new wiki is written beside it, and GET
serves that copy to clients that accept gzip.

This project models the request handling of `putter.go` in Dafny:

- `Hex`: bytes and their lowercase hex encoding (section 8 of RFC 4648), with a decoder and both round trips.
- `Etags`: the strong entity tag (section 2.3 of RFC 7232) built from a digest, and its parser.
- `Paths`: `fixPath`.
- `Http`: requests, responses, header lookup, status codes and `strings.Contains`.
- `Dispatch`: `ServeHTTP`'s path and method switch, `whitelistMethods`, and the GET variant choice.
- `Protocol`: the save protocol as functions on a snapshot `State` of the server. The state is the wiki bytes, the `.gz` file, the archive directory and the ETag. Every I/O failure point is an explicit input.
- `SaveProperties`: what the protocol guarantees, proved about those functions.
- `Putter`: class `Server`. Its fields are the source's `Server` fields plus the files the server owns. Its methods update them step by step as `handlePut`, `archiveWiki`, `compressWiki` and `setEtagFromHash` do. Each state-changing method is proved to produce exactly the state and result that its specification function computes from the old state.

Environment inputs:

- MD5 and gzip are uninterpreted functions, supplied as the constants `digest` and `gzip` of a `Server`.
- The clock is an input: each PUT receives the archive file name already formatted.
- Each I/O step that can fail receives its failure as an input: `StageFault`, `ArchiveFault`, `CompressFault`, `mkdirFails`, `renameFails`, and GET's `openFails`/`statFails`.
- Requests run one at a time, atomically.

The model follows the code in three places where the code does something a reader might not expect:

- **Compression flag.** `newServer` sets the compression flag from the archive flag (putter.go:127). So with `-archive=false -compress=true` nothing is compressed, and with `-archive=true -compress=false` compression still runs. `Server.Init` and `Server.NewServer` state this.
- **Mkdir.** The error of `os.Mkdir` is ignored (putter.go:326). A failed Mkdir matters only when the directory is still missing at `os.Create`, which then fails.
- **Compression failure.** A compression failure after promotion answers 500 but leaves the new wiki in place with the old ETag (putter.go:267-279). `SaveProperties.CompressFailureLeavesStaleEtag` proves that this breaks the agreement between ETag and document. `SaveProperties.PutPreservesCoherence` proves that every other outcome keeps it.

## Model

| member | source | states |
|---|---|---|
| `Hex.HexEncode` | putter.go:350 | the encoding has two characters per byte, all from the lowercase hex alphabet |
| `Hex.HexEncodeAt` | putter.go:350 | byte i is written at positions 2i (high nibble) and 2i+1 (low nibble) |
| `Hex.HexRoundTrip` | putter.go:350 | decoding an encoding gives back the bytes |
| `Hex.HexDecodeEncode` | putter.go:350 | a successful decoding re-encodes to the same string, so the decoder accepts exactly the encoder's outputs |
| `Hex.HexInjective` | putter.go:350 | distinct byte sequences have distinct encodings |
| `Etags.Etag` | putter.go:348-351 | the ETag is `"` + lowercase hex of the digest + `"`, of length 2 + 2·\|digest\|, a strong validator |
| `Etags.EtagRoundTrip` | putter.go:350 | the digest can be read back out of its ETag |
| `Etags.ParseEtagSound` | putter.go:350 | every string the parser accepts is the ETag of the digest it yields |
| `Etags.EtagInjective` | putter.go:350 | distinct digests give distinct ETags |
| `Paths.FixPath` | putter.go:76-86 | on non-empty input the result begins and ends with `/`; the input appears unchanged inside it; a `/` is added on a side only when missing; the result is the identity when both are present |
| `Paths.FixPathIdempotent` | putter.go:76-86 | fixing a fixed path changes nothing |
| `Http.HeaderGet` | putter.go:193 | a header lookup gives the value, or "" when the header is absent |
| `Http.Contains` | putter.go:195 | `strings.Contains`: true only when the substring fits, and always for the empty substring; its full meaning is `Http.ContainsIff` |
| `Http.ContainsIff` | putter.go:195 | `strings.Contains` holds exactly when the substring occurs at some index |
| `Dispatch.Route` | putter.go:152-169 | any path but `/` gives 404 whatever the method; on `/`, HEAD, OPTIONS, GET and PUT reach their handlers and every other method gives 405 |
| `Dispatch.Whitelisted` | putter.go:95-101 | the decorated handler forwards exactly when the allow map holds true for the method (a missing key reads as false), and otherwise answers 405 |
| `Dispatch.WhitelistMethods` | putter.go:88-104 | the allow map built in the loop has exactly the listed methods as keys; the decorated handler forwards exactly the listed methods and answers 405 to all others |
| `Dispatch.SelectVariant` | putter.go:193-199 | GET picks `.gz` exactly when compression is on and `Accept-Encoding` contains `gzip` at some index, and otherwise the plain file |
| `Protocol.ArchiveStep` | putter.go:322-346 | archiving never touches the wiki, the `.gz` file or the ETag; it succeeds exactly when enabled-and-no-fault leaves a directory; on success the old document is stored under the name, overwriting a same-named file; a failure leaves the archive as it was or adds a prefix of the document under the name; a directory never disappears |
| `Protocol.CompressStep` | putter.go:289-319 | compression changes only the `.gz` file; when enabled it succeeds exactly when no fault occurs; on success the file holds the compressed live document; a failed copy leaves the partial bytes; failed open or create changes nothing |
| `Protocol.GetSpec` | putter.go:190-219 | GET answers 200 or 500; 200 exactly when open and stat succeed and, for the gzip variant, the `.gz` file exists; a 200 carries the ETag read at entry and the chosen file's bytes; Content-Encoding is present exactly when the gzip variant was chosen, even on 500 |
| `Protocol.Admitted` | putter.go:253-254 | the If-Match check passes exactly when the header is absent or empty, or equals the current ETag; its consequences are the `SaveProperties` lemmas |
| `Protocol.PutSpec` | putter.go:221-286 | the model of handlePut: a PUT answers 200, 412 or 500, and a 412 leaves the state as it was; its other properties are the `SaveProperties` lemmas |
| `SaveProperties.PutStatus` | putter.go:223-286 | a PUT answers 200, 412 or 500; 200 exactly when staging, the If-Match check, archiving, rename and compression all pass; 412 exactly when staged and the If-Match check fails |
| `SaveProperties.PutStagingFailureChangesNothing` | putter.go:225-248 | a staging failure answers 500 and leaves the state unchanged |
| `SaveProperties.PutConflictChangesNothing` | putter.go:253-258 | a non-empty If-Match differing from the ETag answers 412 and changes nothing: not the document, the ETag, the archive or the `.gz` file |
| `SaveProperties.PutSucceeds` | putter.go:253-283 | an admitted PUT with no failure answers 200 with the new ETag. Afterwards the document is the body and the ETag is quote(hex(digest(body))). With archiving on, the archive gained the previous document under the given name. With compression on, the `.gz` file is gzip(body) |
| `SaveProperties.PutArchiveFailure` | putter.go:260-265 | an archive failure answers 500 with the document, ETag and `.gz` file unchanged |
| `SaveProperties.PutRenameFailure` | putter.go:267-272 | a rename failure answers 500 with the document, ETag and `.gz` file unchanged, while the archive entry just written stays |
| `SaveProperties.PutCompressFailure` | putter.go:274-279 | a compression failure answers 500 with the new document in place and the old ETag kept |
| `SaveProperties.PutEtagOnlyOnSuccess` | putter.go:281-283 | the ETag changes only on a 200, and a 200 reports the ETag now held |
| `SaveProperties.PutKeepsHistory` | putter.go:336-342 | a PUT never removes an archive entry and never alters one under another name |
| `SaveProperties.PutPreservesCoherence` | putter.go:260-283 | every PUT keeps ETag = quote(hex(digest(document))) and, with compression on, `.gz` = gzip(document), except one that passed staging, the If-Match check, archiving and rename and then failed to compress, which leaves the body live and answers 500 |
| `SaveProperties.CompressFailureLeavesStaleEtag` | putter.go:267-281 | when compression fails after promotion and the new body has a different digest, the ETag no longer matches the live document |
| `SaveProperties.GetCoherent` | putter.go:190-218 | on a coherent server a 200 GET carries the ETag of the live document's digest and either the document or its gzip encoding |
| `SaveProperties.StaleTokenScenario` | putter.go:253-283 | start at v1. PUT v2 with v1's ETag: 200, v2's ETag, archive = {name1: v1}. Then PUT v3 with the stale v1 ETag: 412, state unchanged |
| `SaveProperties.Save` | putter.go:223-286 | an unconditional PUT with no failure makes the body live and archives the previous document under the given name |
| `SaveProperties.RunPutsCount` | putter.go:322-346 | after N successful saves under fresh distinct names the archive holds exactly N more entries |
| `SaveProperties.RunPutsNames` | putter.go:335-336 | those N entries are exactly under the run's names |
| `SaveProperties.RunPutsLastDoc` | putter.go:267 | after a run of saves the live document is the last body |
| `SaveProperties.RunPutsKeepsOlderEntries` | putter.go:336 | entries present before the run are left as they were |
| `SaveProperties.RunPutsArchivesEachPriorVersion` | putter.go:260-267 | the entry of the i-th save holds the document live just before it |
| `Putter.Server.Init` | putter.go:122-128 | the configuration is stored; the compression flag is copied from the archive flag |
| `Putter.Server.NewServer` | putter.go:117-149 | startup fails exactly when the wiki is missing or unreadable, or when compression (on when archiving is on) fails. Otherwise the server keeps the file names, archive format, digest and gzip it was given, the ETag is that of the wiki's digest, the `.gz` file is written when compression is on, and the server is coherent |
| `Putter.Server.SetEtagFromHash` | putter.go:348-351 | the ETag becomes the quoted lowercase hex of the digest |
| `Putter.Server.ArchiveWiki` | putter.go:321-346 | the new archive directory, archive and result are those of `ArchiveStep` on the old state |
| `Putter.Server.CompressWiki` | putter.go:288-319 | the new `.gz` file and result are those of `CompressStep` on the old state |
| `Putter.Server.HandlePut` | putter.go:221-286 | the new state and the response are those of `PutSpec` on the old state. A non-200 keeps the ETag, and a 412 changes nothing |
| `Putter.Server.HandleHead` | putter.go:174-179 | 200 with the current ETag and no body |
| `Putter.Server.HandleOptions` | putter.go:183-186 | 200 with `Dav: putter` and nothing else |
| `Putter.Server.HandleGet` | putter.go:190-219 | the response is `GetSpec` of the current state; no state changes |
| `Putter.Server.ServeHTTP` | putter.go:152-169 | only a PUT on `/` can change the server. Other paths give 404 and unknown methods give 405. HEAD, OPTIONS and GET answer as their handlers, and PUT follows `PutSpec` with the If-Match header ("" when absent) |
| `Putter.GetThenHead` | putter.go:177-217 | a GET followed by a HEAD, with no PUT between, report the same ETag, and a 200 GET sends the bytes the server holds (the `.gz` file for the gzip variant, else the wiki) |

## Left out

- `main`: flag parsing, `net.ParseIP`, `http.ListenAndServe`, the `http.FileServer`/`StripPrefix` archive mount and logging (putter.go:36-74). These are process plumbing; `fixPath` and `whitelistMethods`, which `main` uses, are modelled.
- The `sync.RWMutex` (putter.go:108, 175-176, 191, 213, 250-251) and the read lock left held on GET's error paths. Each request is modelled as one atomic step.
- MD5 and gzip internals: both are uninterpreted functions on byte sequences.
- `time.Now().UTC().Format(archiveFormat)`: the formatted archive name is an input. `archiveFormat` is stored but not interpreted.
- File paths: the archive is a map from file name to bytes inside the one archive directory, not `archiveDirName + "/" + name` on a real filesystem. The wiki and its `.gz` sibling are two fields.
- Directory permissions (`755` passed where `0755` was meant, putter.go:326).
- The temporary upload file: its path, its removal by `defer os.Remove`, and the streaming through `io.MultiWriter`. The body arrives whole, and staging is one step that succeeds or fails.
- `http.ServeContent`: its own conditional and range handling, checked against the ETag set at putter.go:217 and the file's modification time: 412 for a failing `If-Match` or `If-Unmodified-Since`, 304 for `If-None-Match` or `If-Modified-Since`, 206 and 416 for range requests. It also adds `Content-Length` (from the file size), `Content-Type`, `Last-Modified` and `Accept-Ranges` to a 200; the model's response headers hold only `ETag` and `Content-Encoding`. In the model a GET's only outcomes are 200 with the whole file and 500.
- Errors from deferred `Close` calls, which the source ignores: the gzip trailer flush after a successful copy, and the archive file's close. The model takes those closes to succeed.
- ArchiveStep: a failed copy is modelled as leaving a prefix of the document, and a failed compression copy as leaving arbitrary bytes in the `.gz` file. The true partial contents depend on the operating system.
- Paths.FixPath: requires a non-empty argument. On "" the source panics indexing `p[0]` (putter.go:78), and the model does not capture that panic.
- Header canonicalisation: header keys are assumed to be in canonical form.
- Go strings are byte strings and are modelled as `seq<char>`.
