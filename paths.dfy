/** Node's POSIX `path.extname`, on which the upload filter decides. */
module Paths {
  import opened Wrappers
  import opened Strings

  /** The path without its trailing '/' characters. */
  function StripTrailingSlashes(p: string): (r: string)
    ensures r <= p
    ensures r == [] || r[|r| - 1] != '/'
    ensures forall i :: |r| <= i < |p| ==> p[i] == '/'
  {
    if p != [] && p[|p| - 1] == '/' then StripTrailingSlashes(p[..|p| - 1]) else p
  }

  /** The part of `p` after its last '/' (all of `p` when it has none). */
  function LastSegment(p: string): string
  {
    if p == [] || p[|p| - 1] == '/' then [] else LastSegment(p[..|p| - 1]) + [p[|p| - 1]]
  }

  /** The last segment is a slash-free suffix of the path, preceded by '/' unless it is
      the whole path. */
  lemma {:induction false} LastSegmentIsSuffix(p: string)
    ensures IsLastSegmentOf(LastSegment(p), p)
  {
    if p != [] && p[|p| - 1] != '/' {
      var q, c := p[..|p| - 1], p[|p| - 1];
      assert p == q + [c];
      assert LastSegment(p) == LastSegment(q) + [c];
      LastSegmentIsSuffix(q);
      SegmentExtend(LastSegment(q), q, c);
    }
  }

  ghost predicate IsLastSegmentOf(r: string, p: string)
  {
    && (forall i :: 0 <= i < |r| ==> r[i] != '/')
    && EndsWith(p, r)
    && (|r| < |p| ==> p[|p| - |r| - 1] == '/')
  }

  lemma SegmentExtend(r: string, q: string, c: char)
    requires IsLastSegmentOf(r, q) && c != '/'
    ensures IsLastSegmentOf(r + [c], q + [c])
  {
    var p, big := q + [c], r + [c];
    forall i | 0 <= i < |big| ensures big[i] != '/' {
      if i < |r| {
        assert big[i] == r[i];
      }
    }
    assert p[|q| - |r|..] == q[|q| - |r|..] + [c];
    if |r| < |q| {
      assert p[|q| - |r| - 1] == q[|q| - |r| - 1];
    }
  }

  /** The last path component, as `path.extname` scans it from the right. */
  function Basename(p: string): string
  {
    LastSegment(StripTrailingSlashes(p))
  }

  /** The index of the last '.' of `s`. */
  function LastDot(s: string): (r: Option<nat>)
    ensures r.Some? ==> r.value < |s| && s[r.value] == '.'
    ensures r.Some? ==> forall i :: r.value < i < |s| ==> s[i] != '.'
    ensures r.None? ==> '.' !in s
  {
    if s == [] then None
    else if s[|s| - 1] == '.' then Some(|s| - 1)
    else LastDot(s[..|s| - 1])
  }

  /** `path.extname(p)`: the last component from its last '.' on, or empty when that
      component has no '.', starts with its only leading '.', or is "..". */
  function ExtName(p: string): (r: string)
    ensures r == [] || (r[0] == '.' && '.' !in r[1..])
  {
    var base := Basename(p);
    match LastDot(base)
    case None => []
    case Some(d) => if d == 0 || base == ".." then [] else base[d..]
  }

  lemma {:induction false} LastSegmentWithoutSlash(p: string)
    requires '/' !in p
    ensures LastSegment(p) == p
  {
    if p != [] {
      assert p[|p| - 1] in p;
      assert p[..|p| - 1] + [p[|p| - 1]] == p;
      LastSegmentWithoutSlash(p[..|p| - 1]);
    }
  }

  lemma BasenameWithoutSlash(p: string)
    requires '/' !in p
    ensures Basename(p) == p
  {
    if p != [] { assert p[|p| - 1] in p; }
    LastSegmentWithoutSlash(p);
  }

  /** What a text that lower-cases to ".bin" looks like. */
  lemma LowerBin(t: string)
    requires ToLower(t) == ".bin"
    ensures |t| == 4 && t[0] == '.'
    ensures forall i :: 0 < i < |t| ==> t[i] != '.'
  {
    assert LowerChar(t[0]) == '.';
    forall i | 0 < i < |t| ensures t[i] != '.' {
      assert LowerChar(t[i]) == ".bin"[i];
    }
  }

  lemma ExtIsBinOnlyIf(p: string)
    requires ToLower(ExtName(p)) == ".bin"
    ensures var base := Basename(p); |base| >= 5 && ToLower(base[|base| - 4..]) == ".bin"
  {
    var base := Basename(p);
    var ext := ExtName(p);
    LowerBin(ext);
    var dot := LastDot(base);
    assert dot.Some? && dot.value != 0 && base != "..";
    var d := dot.value;
    assert ext == base[d..];
    assert d == |base| - 4;
  }

  lemma ExtIsBinIf(p: string)
    requires var base := Basename(p); |base| >= 5 && ToLower(base[|base| - 4..]) == ".bin"
    ensures ToLower(ExtName(p)) == ".bin"
  {
    var base := Basename(p);
    var k := |base| - 4;
    var tail := base[k..];
    LowerBin(tail);
    assert base[k] == tail[0];
    forall i | k < i < |base| ensures base[i] != '.' {
      assert base[i] == tail[i - k];
    }
    match LastDot(base)
    case None =>
      assert base[k] in base;
    case Some(d) =>
      assert d == k;
  }

  /** A file named just ".bin" has no extension: its only dot is its first character. */
  lemma BareBinHasNoExtension()
    ensures ExtName(".bin") == []
  {
    var p := ".bin";
    BasenameWithoutSlash(p);
    assert LastDot(p) == Some(0) by {
      assert p[..3] == ".bi" && p[..2] == ".b" && p[..1] == ".";
    }
  }

  /** The extension filter accepts exactly the names whose last component is longer than
      four characters and ends in ".bin" in any letter case; a bare ".bin" is rejected. */
  lemma ExtIsBinIff(p: string)
    ensures ToLower(ExtName(p)) == ".bin" <==>
      var base := Basename(p);
      |base| >= 5 && ToLower(base[|base| - 4..]) == ".bin"
  {
    var base := Basename(p);
    if ToLower(ExtName(p)) == ".bin" {
      ExtIsBinOnlyIf(p);
    }
    if |base| >= 5 && ToLower(base[|base| - 4..]) == ".bin" {
      ExtIsBinIf(p);
    }
  }
}
