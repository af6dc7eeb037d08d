/**
 * Paths as the platform's `IPath` sees them: a sequence of segments.
 * Only what the modelled utilities rely on is here: the segment-wise prefix
 * test (`isPrefixOf`), dropping the last segment (`removeLastSegments(1)`),
 * parsing a string into segments (`new Path(String)`) and printing a
 * relative path back (`toString`).
 */
module Paths {

  type Path = seq<string>

  /** `p.isPrefixOf(q)`: every segment of `p` is the segment at the same place in `q`. */
  predicate IsPrefix(p: Path, q: Path)
  {
    |p| <= |q| && q[..|p|] == p
  }

  /** `removeLastSegments(1)`; the empty path stays empty. */
  function RemoveLastSegment(p: Path): (r: Path)
    ensures p != [] ==> |r| == |p| - 1 && IsPrefix(r, p)
    ensures p == [] ==> r == []
  {
    if p == [] then [] else p[..|p| - 1]
  }

  /** A segment as `Path` keeps it after parsing: non-empty, not ".", no separator. */
  predicate IsSegment(x: string)
  {
    x != [] && x != "." && '/' !in x
  }

  /** Length of the leading run of non-separator characters of `s`. */
  function NameLength(s: string): (n: nat)
    ensures n <= |s|
    ensures forall i :: 0 <= i < n ==> s[i] != '/'
    ensures n < |s| ==> s[n] == '/'
  {
    if s == [] || s[0] == '/' then 0 else 1 + NameLength(s[1..])
  }

  /**
   * The segments of `new Path(s)`: the maximal runs of characters between
   * separators, with empty runs (repeated, leading or trailing '/') and "."
   * runs dropped.
   */
  function Segments(s: string): (r: Path)
    ensures forall i :: 0 <= i < |r| ==> IsSegment(r[i])
    decreases |s|
  {
    if s == [] then []
    else if s[0] == '/' then Segments(s[1..])
    else
      var n := NameLength(s);
      (if s[..n] == "." then [] else [s[..n]]) + Segments(s[n..])
  }

  /** A relative path printed with '/' between its segments. */
  function Join(segments: Path): string
  {
    if segments == [] then []
    else if |segments| == 1 then segments[0]
    else segments[0] + "/" + Join(segments[1..])
  }

  /** Parsing a printed path gives back its segments. */
  lemma {:induction false} SegmentsOfJoin(segments: Path)
    requires forall i :: 0 <= i < |segments| ==> IsSegment(segments[i])
    ensures Segments(Join(segments)) == segments
  {
    if segments != [] {
      var x := segments[0];
      var s := Join(segments);
      if |segments| == 1 {
        assert s == x + [];
        NameLengthOfSegment(x, []);
        assert s[|x|..] == [];
      } else {
        var rest := Join(segments[1..]);
        assert s == x + ("/" + rest);
        NameLengthOfSegment(x, "/" + rest);
        assert s[..|x|] == x;
        assert s[|x|..] == "/" + rest;
        assert ("/" + rest)[1..] == rest;
        SegmentsOfJoin(segments[1..]);
      }
    }
  }

  /** A character other than the separator occurs in a printed path only if it occurs in a segment. */
  lemma {:induction false} JoinAvoids(segments: Path, c: char)
    requires c != '/'
    requires forall i :: 0 <= i < |segments| ==> c !in segments[i]
    ensures c !in Join(segments)
  {
    if |segments| > 1 {
      JoinAvoids(segments[1..], c);
      assert Join(segments) == segments[0] + "/" + Join(segments[1..]);
    }
  }

  lemma {:induction false} NameLengthOfSegment(x: string, rest: string)
    requires '/' !in x
    requires rest == [] || rest[0] == '/'
    ensures NameLength(x + rest) == |x|
    ensures (x + rest)[..|x|] == x
  {
    if x != [] {
      assert x[0] in x;
      assert (x + rest)[1..] == x[1..] + rest;
      assert forall c :: c in x[1..] ==> c in x;
      NameLengthOfSegment(x[1..], rest);
    }
  }

  /** `isPrefixOf` is transitive. */
  lemma PrefixTransitive(p: Path, q: Path, r: Path)
    requires IsPrefix(p, q) && IsPrefix(q, r)
    ensures IsPrefix(p, r)
  {
    assert r[..|p|] == r[..|q|][..|p|];
  }

  /** A proper prefix of a path is a prefix of its parent. */
  lemma PrefixOfParent(p: Path, q: Path)
    requires IsPrefix(p, q) && p != q
    ensures IsPrefix(p, RemoveLastSegment(q))
  {
    assert |p| < |q|;
    assert RemoveLastSegment(q)[..|p|] == q[..|p|];
  }
}
