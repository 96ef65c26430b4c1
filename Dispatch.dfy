/**
 * Request routing: which handler a (path, method) pair reaches, the method
 * whitelist put in front of the archive file server, and the choice between
 * the plain and the gzipped variant of the wiki on GET.
 */
module Dispatch {
  import opened Http

  /** The branch of ServeHTTP a request takes (putter.go:152-169). */
  datatype Handler = NotFound | MethodNotAllowed | ServeHead | ServeOptions | ServeGet | ServePut

  /**
   * ServeHTTP's switch. The path is checked first: any path but "/" is a 404
   * whatever the method; on "/" the four known methods reach their handlers
   * and every other method is a 405.
   */
  function Route(path: string, verb: string): (h: Handler)
    ensures path != "/" ==> h == NotFound
    ensures path == "/" ==> h != NotFound
    ensures h == MethodNotAllowed <==>
              path == "/" && verb != MethodHead && verb != MethodOptions && verb != MethodGet && verb != MethodPut
    ensures h == ServeHead <==> path == "/" && verb == MethodHead
    ensures h == ServeOptions <==> path == "/" && verb == MethodOptions
    ensures h == ServeGet <==> path == "/" && verb == MethodGet
    ensures h == ServePut <==> path == "/" && verb == MethodPut
  {
    if path != "/" then NotFound
    else if verb == MethodHead then ServeHead
    else if verb == MethodOptions then ServeOptions
    else if verb == MethodGet then ServeGet
    else if verb == MethodPut then ServePut
    else MethodNotAllowed
  }

  /** The outcome of the whitelisting decorator: pass the request on, or answer with a status. */
  datatype Decision = Forward | Reject(status: int)

  /**
   * The handler whitelistMethods returns, applied to a request method
   * (putter.go:95-101). Go's map lookup allow[r.Method] yields false for a
   * missing key, so only a key mapped to true forwards.
   */
  function Whitelisted(allow: map<string, bool>, verb: string): (d: Decision)
    ensures d == Forward <==> verb in allow && allow[verb]
    ensures d != Forward ==> d == Reject(StatusMethodNotAllowed)
  {
    if verb in allow && allow[verb] then Forward else Reject(StatusMethodNotAllowed)
  }

  /**
   * whitelistMethods (putter.go:88-104): builds the allow map in a loop; the
   * decorated handler then forwards exactly the listed methods and answers
   * 405 to every other.
   */
  method WhitelistMethods(methods: seq<string>) returns (allow: map<string, bool>)
    ensures forall verb :: Whitelisted(allow, verb) == if verb in methods then Forward else Reject(StatusMethodNotAllowed)
    ensures allow.Keys == set m | m in methods
  {
    allow := map[];
    for i := 0 to |methods|
      invariant allow.Keys == set m | m in methods[..i]
      invariant forall verb :: verb in allow ==> allow[verb]
    {
      assert methods[..i + 1] == methods[..i] + [methods[i]];
      allow := allow[methods[i] := true];
    }
    assert methods[..|methods|] == methods;
  }

  /**
   * The file extension handleGet opens (putter.go:193-199): ".gz" exactly
   * when compression is enabled and the Accept-Encoding value contains
   * "gzip" anywhere (so "x-gzip" and "gzip;q=0" select it too), "" otherwise.
   */
  function SelectVariant(isCompress: bool, acceptEncoding: string): (ext: string)
    ensures ext == "" || ext == ExtensionGzip
    ensures ext == ExtensionGzip <==> isCompress && exists i :: OccursAt(acceptEncoding, EncodingGzip, i)
  {
    ContainsIff(acceptEncoding, EncodingGzip);
    if isCompress && Contains(acceptEncoding, EncodingGzip) then ExtensionGzip else ""
  }
}
