/** The slice of HTTP the server uses: requests, responses, header names, status codes. */
module Http {
  import opened Hex

  const StatusOK := 200
  const StatusNotFound := 404
  const StatusMethodNotAllowed := 405
  const StatusPreconditionFailed := 412
  const StatusInternalServerError := 500

  const MethodGet := "GET"
  const MethodHead := "HEAD"
  const MethodOptions := "OPTIONS"
  const MethodPut := "PUT"

  // putter.go:23-34
  const HeaderAcceptEncoding := "Accept-Encoding"
  const HeaderContentEncoding := "Content-Encoding"
  const HeaderDav := "Dav"
  const HeaderEtag := "ETag"
  const HeaderIfMatch := "If-Match"
  const EncodingGzip := "gzip"
  const ExtensionGzip := ".gz"

  /** Header keys are taken to be in canonical form already. */
  type Header = map<string, string>

  /** A request; `verb` is the HTTP method (r.Method). */
  datatype Request = Request(path: string, verb: string, header: Header, body: Bytes)

  datatype Response = Response(status: int, header: Header, body: Bytes)

  /** A response carrying only a status line (w.WriteHeader with no header set). */
  function Status(code: int): Response
  {
    Response(code, map[], [])
  }

  /** Header.Get: the value under the key, or "" when the header is absent. */
  function HeaderGet(h: Header, key: string): (v: string)
    ensures key in h ==> v == h[key]
    ensures key !in h ==> v == ""
  {
    if key in h then h[key] else ""
  }

  /** sub occurs in s starting at index i. */
  ghost predicate OccursAt(s: string, sub: string, i: int) {
    0 <= i && i + |sub| <= |s| && s[i..i + |sub|] == sub
  }

  /** strings.Contains: does sub occur anywhere in s (the empty string occurs everywhere)? */
  function Contains(s: string, sub: string): (b: bool)
    ensures b ==> |sub| <= |s|
    ensures sub == [] ==> b
    decreases |s|
  {
    if |sub| > |s| then false
    else s[..|sub|] == sub || Contains(s[1..], sub)
  }

  /** An occurrence past index 0 is an occurrence in the tail, one index earlier. */
  lemma OccursShift(s: string, sub: string, i: int)
    requires 1 <= |s| && 1 <= i
    ensures OccursAt(s, sub, i) <==> OccursAt(s[1..], sub, i - 1)
  {
  }

  /** Contains holds exactly when there is an index at which sub occurs. */
  lemma {:induction false} ContainsIff(s: string, sub: string)
    ensures Contains(s, sub) <==> exists i :: OccursAt(s, sub, i)
    decreases |s|
  {
    if |sub| <= |s| {
      assert OccursAt(s, sub, 0) <==> s[..|sub|] == sub;
      if s[..|sub|] != sub {
        ContainsIff(s[1..], sub);
        forall i | 1 <= i
          ensures OccursAt(s, sub, i) <==> OccursAt(s[1..], sub, i - 1)
        {
          OccursShift(s, sub, i);
        }
        if Contains(s[1..], sub) {
          var j :| OccursAt(s[1..], sub, j);
          assert OccursAt(s, sub, j + 1);
        }
      }
    }
  }
}
