/** URL prefix normalisation for the archive mount point. */
module Paths {

  /**
   * fixPath (putter.go:76-86): adds a leading and a trailing '/' where they
   * are missing and changes nothing else. The source indexes p[0], so the
   * empty string is outside its domain.
   */
  function FixPath(p: string): (r: string)
    requires |p| > 0
    ensures |r| > 0 && r[0] == '/' && r[|r| - 1] == '/'
    ensures var lead := if p[0] == '/' then 0 else 1;
            var trail := if p[|p| - 1] == '/' then 0 else 1;
            |r| == lead + |p| + trail && r[lead..lead + |p|] == p
    ensures p[0] == '/' && p[|p| - 1] == '/' ==> r == p
  {
    var q := if p[0] != '/' then "/" + p else p;
    if q[|q| - 1] != '/' then q + "/" else q
  }

  /** Normalising twice is normalising once. */
  lemma FixPathIdempotent(p: string)
    requires |p| > 0
    ensures FixPath(FixPath(p)) == FixPath(p)
  {
  }
}
