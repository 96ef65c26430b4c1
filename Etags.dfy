/**
 * The version token: the content digest rendered as a quoted lowercase
 * hexadecimal string, an HTTP strong entity tag (section 2.3 of RFC 7232:
 * no "W/" prefix, the opaque tag between double quotes).
 */
module Etags {
  import opened Wrappers
  import opened Hex

  /** The ETag built from a digest (putter.go:349-351). */
  function Etag(digest: Bytes): (e: string)
    ensures |e| == 2 + 2 * |digest|
    ensures e[0] == '"' && e[|e| - 1] == '"'
    ensures forall i :: 0 < i < |e| - 1 ==> IsLowerHex(e[i])
    ensures e[1..|e| - 1] == HexEncode(digest)
  {
    "\"" + HexEncode(digest) + "\""
  }

  /** Reads the digest back out of a strong ETag; None when the quotes or the hex are wrong. */
  function ParseEtag(e: string): (r: Option<Bytes>)
    ensures r.Some? ==> |e| == 2 + 2 * |r.value| && e[0] == '"' && e[|e| - 1] == '"'
  {
    if |e| < 2 || e[0] != '"' || e[|e| - 1] != '"' then None
    else HexDecode(e[1..|e| - 1])
  }

  /** The digest can be recovered from its ETag. */
  lemma EtagRoundTrip(d: Bytes)
    ensures ParseEtag(Etag(d)) == Some(d)
  {
    HexRoundTrip(d);
  }

  /** A parsed ETag is exactly the one that would be built from the digest it carries. */
  lemma ParseEtagSound(e: string)
    ensures ParseEtag(e).Some? ==> Etag(ParseEtag(e).value) == e
  {
    if ParseEtag(e).Some? {
      HexDecodeEncode(e[1..|e| - 1]);
      assert e == [e[0]] + e[1..|e| - 1] + [e[|e| - 1]];
    }
  }

  /** Distinct digests give distinct ETags. */
  lemma EtagInjective(a: Bytes, b: Bytes)
    ensures Etag(a) == Etag(b) ==> a == b
  {
    EtagRoundTrip(a);
    EtagRoundTrip(b);
  }
}
