/**
 * The two POSIX `path` functions the upload path uses: `path.extname(p)` and
 * `path.parse(p).name`.  Both look only at the last path segment (trailing
 * slashes ignored); the extension starts at the last '.' of that segment,
 * unless the dot is its first character or the segment is "..".
 */
module NodePath {
  import opened Wrappers

  /** `p` without its trailing '/' characters. */
  function StripTrailingSlashes(p: string): (r: string)
    ensures |r| <= |p| && r == p[..|r|]
    ensures r == "" || r[|r| - 1] != '/'
    ensures forall i :: |r| <= i < |p| ==> p[i] == '/'
  {
    if |p| > 0 && p[|p| - 1] == '/' then StripTrailingSlashes(p[..|p| - 1]) else p
  }

  /** The index just past the last '/' of `p` (0 when there is none). */
  function SegmentStart(p: string): (k: nat)
    ensures k <= |p|
    ensures forall i :: k <= i < |p| ==> p[i] != '/'
    ensures k == 0 || p[k - 1] == '/'
  {
    if |p| == 0 then 0 else if p[|p| - 1] == '/' then |p| else SegmentStart(p[..|p| - 1])
  }

  /** The last segment of `p`, as `path.parse(p).base` gives it. */
  function Basename(p: string): (b: string)
    ensures forall i :: 0 <= i < |b| ==> b[i] != '/'
  {
    var q := StripTrailingSlashes(p);
    q[SegmentStart(q)..]
  }

  /** The index of the last '.' in `b`. */
  function LastDot(b: string): (r: Option<nat>)
    ensures r.Some? ==> r.value < |b| && b[r.value] == '.'
    ensures r.Some? ==> forall i :: r.value < i < |b| ==> b[i] != '.'
    ensures r.None? ==> forall i :: 0 <= i < |b| ==> b[i] != '.'
  {
    if |b| == 0 then None
    else if b[|b| - 1] == '.' then Some(|b| - 1)
    else LastDot(b[..|b| - 1])
  }

  /** The extension of a single segment: from its last '.', or "" when it has no dot, only a leading one, or is "..". */
  function SegmentExtension(b: string): (e: string)
    ensures |e| <= |b| && e == b[|b| - |e|..]
    ensures e != "" ==> e[0] == '.' && |e| < |b|
    ensures forall i :: 0 < i < |e| ==> e[i] != '.'
  {
    match LastDot(b)
    case None => ""
    case Some(i) => if i == 0 || b == ".." then "" else b[i..]
  }

  /** `path.extname(p)`. */
  function Extname(p: string): (e: string)
    ensures e == "" || e[0] == '.'
  {
    SegmentExtension(Basename(p))
  }

  /** `path.parse(p).name`: the last segment without its extension. */
  function Stem(p: string): (name: string)
    ensures name + Extname(p) == Basename(p)
  {
    var b := Basename(p);
    b[..|b| - |SegmentExtension(b)|]
  }

  /** A name without any '/' is its own last segment. */
  lemma PlainNameIsBasename(p: string)
    requires forall i :: 0 <= i < |p| ==> p[i] != '/'
    ensures Basename(p) == p
  {
    assert StripTrailingSlashes(p) == p;
    assert SegmentStart(p) == 0;
  }

  /**
   * A file name written as a non-empty stem, a dot and a dot-free suffix
   * splits back into exactly that stem and extension.
   */
  lemma StemAndExtname(stem: string, suffix: string)
    requires stem != "" && stem + "." + suffix != ".."
    requires forall i :: 0 <= i < |stem| ==> stem[i] != '/'
    requires forall i :: 0 <= i < |suffix| ==> suffix[i] != '/' && suffix[i] != '.'
    ensures Extname(stem + "." + suffix) == "." + suffix
    ensures Stem(stem + "." + suffix) == stem
  {
    var p := stem + "." + suffix;
    forall i | 0 <= i < |p| ensures p[i] != '/' {
      if i < |stem| { assert p[i] == stem[i]; }
      else if i > |stem| { assert p[i] == suffix[i - |stem| - 1]; }
    }
    PlainNameIsBasename(p);
    assert p[|stem|] == '.';
    assert forall i :: |stem| < i < |p| ==> p[i] != '.' by {
      forall i | |stem| < i < |p| ensures p[i] != '.' {
        assert p[i] == suffix[i - |stem| - 1];
      }
    }
    assert LastDot(p) == Some(|stem|);
    assert p[|stem|..] == "." + suffix;
  }
}
