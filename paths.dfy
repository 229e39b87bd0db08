/**
 * The two path helpers the base-directory rule of the rewriter relies on:
 * POSIX `path.resolve(path.dirname(file), p)`, modelled as a normaliser over
 * `/`-separated segments with the working directory as a parameter, and
 * JavaScript's `s.split(sep)[1]` for a non-empty separator.
 */
module Paths {
  import opened Wrappers

  predicate IsAbsolute(p: string)
  {
    |p| > 0 && p[0] == '/'
  }

  /** The non-empty `/`-separated segments of `p`, `cur` being the one under way. */
  function SegmentsFrom(p: string, cur: string): (r: seq<string>)
    requires '/' !in cur
    decreases |p|
    ensures forall k :: 0 <= k < |r| ==> r[k] != [] && '/' !in r[k]
    ensures '/' !in p && cur + p != [] ==> r == [cur + p]
  {
    if p == [] then assert cur + p == cur; (if cur == [] then [] else [cur])
    else if p[0] == '/' then (if cur == [] then [] else [cur]) + SegmentsFrom(p[1..], [])
    else
      assert cur + p == (cur + [p[0]]) + p[1..];
      SegmentsFrom(p[1..], cur + [p[0]])
  }

  function Segments(p: string): seq<string>
  {
    SegmentsFrom(p, [])
  }

  /** One step of normalisation: `.` stays put, `..` climbs (never above the root). */
  function Step(acc: seq<string>, s: string): seq<string>
  {
    if s == "." || s == "" then acc
    else if s == ".." then (if acc == [] then [] else acc[..|acc| - 1])
    else acc + [s]
  }

  /** No empty, `.` or `..` segment is left. */
  predicate IsNormal(segs: seq<string>)
  {
    forall k :: 0 <= k < |segs| ==> segs[k] != "" && segs[k] != "." && segs[k] != ".."
  }

  function Normalize(segs: seq<string>): (r: seq<string>)
    decreases |segs|
    ensures IsNormal(r)
    ensures |r| <= |segs|
    ensures forall k :: 0 <= k < |r| ==> r[k] in segs
  {
    if segs == [] then []
    else
      var init := Normalize(segs[..|segs| - 1]);
      assert forall k :: 0 <= k < |init| ==> init[k] in segs by {
        forall k | 0 <= k < |init| ensures init[k] in segs {
          assert init[k] in segs[..|segs| - 1];
        }
      }
      Step(init, segs[|segs| - 1])
  }

  lemma {:induction false} NormalizeNormal(segs: seq<string>)
    requires IsNormal(segs)
    ensures Normalize(segs) == segs
  {
    if segs != [] {
      NormalizeNormal(segs[..|segs| - 1]);
      assert segs[..|segs| - 1] + [segs[|segs| - 1]] == segs;
    }
  }

  /** The absolute path whose segments are `segs`. */
  function Join(segs: seq<string>): (r: string)
    ensures IsAbsolute(r)
  {
    if segs == [] then "/"
    else if |segs| == 1 then "/" + segs[0]
    else Join(segs[..|segs| - 1]) + "/" + segs[|segs| - 1]
  }

  lemma {:induction false} SegmentsFromAcrossSlash(x: string, y: string, cur: string)
    requires '/' !in cur
    decreases |x|
    ensures SegmentsFrom(x + "/" + y, cur) == SegmentsFrom(x, cur) + SegmentsFrom(y, [])
  {
    if x == [] {
      assert x + "/" + y == "/" + y;
      assert ("/" + y)[1..] == y;
    } else {
      assert (x + "/" + y)[1..] == x[1..] + "/" + y;
      if x[0] == '/' {
        SegmentsFromAcrossSlash(x[1..], y, []);
      } else {
        SegmentsFromAcrossSlash(x[1..], y, cur + [x[0]]);
      }
    }
  }

  /** Splitting a joined path gives back its segments. */
  lemma {:induction false} SegmentsOfJoin(segs: seq<string>)
    requires forall k :: 0 <= k < |segs| ==> segs[k] != [] && '/' !in segs[k]
    ensures Segments(Join(segs)) == segs
  {
    if segs == [] {
      assert "/"[1..] == [];
    } else if |segs| == 1 {
      SegmentsFromAcrossSlash([], segs[0], []);
      assert [] + "/" + segs[0] == "/" + segs[0] == Join(segs);
      assert SegmentsFrom(segs[0], []) == [segs[0]] by { assert [] + segs[0] == segs[0]; }
      assert SegmentsFrom([], []) == [];
    } else {
      var init, last := segs[..|segs| - 1], segs[|segs| - 1];
      SegmentsOfJoin(init);
      assert Join(segs) == Join(init) + "/" + last;
      SegmentsFromAcrossSlash(Join(init), last, []);
      assert SegmentsFrom(last, []) == [last] by { assert [] + last == last; }
      assert Segments(Join(init)) == init;
      assert Segments(Join(segs)) == SegmentsFrom(Join(init), []) + SegmentsFrom(last, []);
      assert init + [last] == segs;
    }
  }

  /** A `..` climbs out of the segment before it. */
  lemma DotDotClimbs(segs: seq<string>, x: string)
    requires x != "" && x != "." && x != ".."
    ensures Normalize(segs + [x, ".."]) == Normalize(segs)
  {
    var s := segs + [x, ".."];
    assert s[..|s| - 1] == segs + [x] && (segs + [x])[..|segs|] == segs;
  }

  /** A segment that is neither empty, `.` nor `..` is appended. */
  lemma NormalSegmentAppends(segs: seq<string>, x: string)
    requires x != "" && x != "." && x != ".."
    ensures Normalize(segs + [x]) == Normalize(segs) + [x]
  {
  }

  /** A `..` removes the last segment the path has reached, whatever led there. */
  lemma DotDotPops(segs: seq<string>, init: seq<string>, x: string)
    requires Normalize(segs) == init + [x]
    ensures Normalize(segs + [".."]) == init
  {
  }

  /** A `.` segment, and an empty one, leave the path where it was. */
  lemma DotStays(segs: seq<string>, x: string)
    requires x == "." || x == ""
    ensures Normalize(segs + [x]) == Normalize(segs)
  {
  }

  /** A `..` at the root stays at the root. */
  lemma DotDotAtRoot(segs: seq<string>)
    requires Normalize(segs) == []
    ensures Normalize(segs + [".."]) == []
  {
  }

  /**
   * The segments of `path.dirname(file)` resolved against `cwd`: everything
   * but the last segment of the file's path, under `cwd` when the file's
   * path is relative; `dirname("")` is `.`, so an empty name gives `cwd`.
   */
  function DirSegments(cwd: string, file: string): (r: seq<string>)
    ensures file == "" ==> r == Segments(cwd)
    ensures !IsAbsolute(file) ==> |Segments(cwd)| <= |r| && r[..|Segments(cwd)|] == Segments(cwd)
  {
    var fileSegs := Segments(file);
    (if IsAbsolute(file) then [] else Segments(cwd)) + (if fileSegs == [] then [] else fileSegs[..|fileSegs| - 1])
  }

  /**
   * `path.resolve(path.dirname(file), p)`: an absolute `p` stands on its
   * own; otherwise `p` is taken on top of the file's directory. The result
   * is an absolute path whose segments are that sequence normalised.
   */
  function ResolveFrom(cwd: string, file: string, p: string): (r: string)
    ensures IsAbsolute(r)
    ensures IsNormal(Segments(r))
    ensures Segments(r) == Normalize((if IsAbsolute(p) then [] else DirSegments(cwd, file)) + Segments(p))
  {
    var dir := if IsAbsolute(p) then [] else DirSegments(cwd, file);
    var segs := Normalize(dir + Segments(p));
    assert forall k :: 0 <= k < |segs| ==> segs[k] != [] && '/' !in segs[k] by {
      forall k | 0 <= k < |segs| ensures segs[k] != [] && '/' !in segs[k] {
        assert segs[k] in dir + Segments(p);
      }
    }
    SegmentsOfJoin(segs);
    Join(segs)
  }

  /** The directory of an absolute file is every segment of its path but the last. */
  lemma DirOfJoin(cwd: string, segs: seq<string>, x: string)
    requires forall k :: 0 <= k < |segs| ==> segs[k] != [] && '/' !in segs[k]
    requires x != [] && '/' !in x
    ensures DirSegments(cwd, Join(segs + [x])) == segs
  {
    var all := segs + [x];
    assert forall k :: 0 <= k < |all| ==> all[k] != [] && '/' !in all[k];
    SegmentsOfJoin(all);
    assert all[..|all| - 1] == segs;
    assert [] + segs == segs;
  }

  /** An absolute `p` that is already normal resolves to itself, wherever the file is. */
  lemma ResolveAbsolute(cwd: string, file: string, p: string)
    requires IsAbsolute(p) && IsNormal(Segments(p))
    ensures Segments(ResolveFrom(cwd, file, p)) == Segments(p)
  {
    NormalizeNormal(Segments(p));
    assert [] + Segments(p) == Segments(p);
  }

  /** `sep` occurs in `s` at index j. */
  predicate OccursAt(s: string, sep: string, j: nat)
  {
    j + |sep| <= |s| && s[j..j + |sep|] == sep
  }

  /** The first occurrence of `sep` in `s` at or after index `from`. */
  function IndexOf(s: string, sep: string, from: nat): (r: Option<nat>)
    requires |sep| > 0
    decreases |s| - from
    ensures r.Some? ==> from <= r.value && OccursAt(s, sep, r.value)
    ensures r.Some? ==> forall j :: from <= j < r.value ==> !OccursAt(s, sep, j)
    ensures r.None? ==> forall j :: from <= j ==> !OccursAt(s, sep, j)
  {
    if from + |sep| > |s| then None
    else if s[from..from + |sep|] == sep then Some(from)
    else IndexOf(s, sep, from + 1)
  }

  /** `sep` occurs in `s`. */
  predicate Occurs(s: string, sep: string)
  {
    exists j: nat :: j <= |s| && OccursAt(s, sep, j)
  }

  /**
   * `s.split(sep)[1]`: the text between the first and the second occurrence
   * of `sep` (or the end of `s`); `None` stands for `undefined`, when `sep`
   * does not occur at all.
   */
  function SplitSecond(s: string, sep: string): (r: Option<string>)
    requires |sep| > 0
    ensures r.Some? <==> Occurs(s, sep)
    ensures r.Some? ==> !Occurs(r.value, sep)
    ensures r.Some? ==> var i := IndexOf(s, sep, 0).value;
              i + |sep| + |r.value| <= |s| && s[i..i + |sep| + |r.value|] == sep + r.value
    ensures r.Some? ==> var e := IndexOf(s, sep, 0).value + |sep| + |r.value|;
              e == |s| || OccursAt(s, sep, e)
    ensures r.Some? ==> var i := IndexOf(s, sep, 0).value;
              forall j :: i + |sep| <= j < i + |sep| + |r.value| ==> !OccursAt(s, sep, j)
  {
    match IndexOf(s, sep, 0)
    case None => None
    case Some(i) =>
      var start := i + |sep|;
      var next := IndexOf(s, sep, start);
      var e := if next.Some? then next.value else |s|;
      PieceBetween(s, sep, i, e);
      Some(s[start..e])
  }

  /**
   * The piece from just after the occurrence at `i` up to `e`, where `e`
   * is the next occurrence or the end: it holds no `sep` and follows `sep`.
   */
  lemma PieceBetween(s: string, sep: string, i: nat, e: nat)
    requires |sep| > 0 && OccursAt(s, sep, i) && i + |sep| <= e <= |s|
    requires forall j :: i + |sep| <= j < e ==> !OccursAt(s, sep, j)
    ensures !Occurs(s[i + |sep|..e], sep)
    ensures s[i..e] == sep + s[i + |sep|..e]
  {
    NoOccurrenceIn(s, sep, i + |sep|, e);
  }

  /** A stretch of `s` with no occurrence starting in it holds no occurrence. */
  lemma NoOccurrenceIn(s: string, sep: string, lo: nat, hi: nat)
    requires |sep| > 0 && lo <= hi <= |s|
    requires forall j :: lo <= j < hi ==> !OccursAt(s, sep, j)
    ensures !Occurs(s[lo..hi], sep)
  {
    forall m: nat | OccursAt(s[lo..hi], sep, m) ensures false {
      assert m + |sep| <= hi - lo;
      var inner, outer := s[lo..hi][m..m + |sep|], s[lo + m..lo + m + |sep|];
      assert forall t :: 0 <= t < |sep| ==> inner[t] == outer[t];
      assert inner == outer;
      assert OccursAt(s, sep, lo + m);
    }
  }

  /** Text that starts with `sep` and holds it nowhere else splits into that remainder. */
  lemma SplitSecondAfterPrefix(sep: string, tail: string)
    requires |sep| > 0
    requires !Occurs(tail, sep)
    ensures SplitSecond(sep + tail, sep) == Some(tail)
  {
    var s := sep + tail;
    assert OccursAt(s, sep, 0) by { assert s[0..|sep|] == sep; }
    assert IndexOf(s, sep, 0) == Some(0);
    forall j | |sep| <= j ensures !OccursAt(s, sep, j) {
      if OccursAt(s, sep, j) {
        assert tail[j - |sep|..j - |sep| + |sep|] == s[j..j + |sep|];
        assert OccursAt(tail, sep, j - |sep|);
      }
    }
    assert IndexOf(s, sep, |sep|) == None;
    assert s[|sep|..|s|] == tail;
  }

  /**
   * With `sep` at the start and again after `mid`, the piece is `mid`: what
   * follows the second occurrence is dropped.
   */
  lemma SplitSecondBetween(sep: string, mid: string, post: string)
    requires |sep| > 0
    requires !Occurs(mid + sep[..|sep| - 1], sep)
    ensures SplitSecond(sep + mid + sep + post, sep) == Some(mid)
  {
    var s := sep + mid + sep + post;
    var t := mid + sep[..|sep| - 1];
    var e := |sep| + |mid|;
    assert OccursAt(s, sep, 0) by { assert s[0..|sep|] == sep; }
    assert IndexOf(s, sep, 0) == Some(0);
    assert OccursAt(s, sep, e) by { assert s[e..e + |sep|] == sep; }
    forall j | |sep| <= j < e ensures !OccursAt(s, sep, j) {
      if OccursAt(s, sep, j) {
        assert s[|sep|..|sep| + |t|] == t;
        assert t[j - |sep|..j - |sep| + |sep|] == s[j..j + |sep|];
        assert OccursAt(t, sep, j - |sep|);
      }
    }
    assert IndexOf(s, sep, |sep|) == Some(e);
    assert s[|sep|..e] == mid;
  }
}
