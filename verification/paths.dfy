/**
  Path tokenizing (parse_path over strtok with "/" as the only delimiter),
  the segment count (get_path_dir_no), and the absolute path the open and
  remove operations rebuild from segments before calling mkdir.
*/
module Paths {
  import opened FsTypes

  /** Length of the leading run of non-slash characters of `s`. */
  function FirstSlash(s: string): (k: nat)
    ensures k <= |s|
    ensures forall i :: 0 <= i < k ==> s[i] != '/'
    ensures k < |s| ==> s[k] == '/'
  {
    if |s| == 0 || s[0] == '/' then 0 else 1 + FirstSlash(s[1..])
  }

  /** The tokens strtok returns for delimiter "/": the maximal non-empty runs of
      non-slash characters, in order. Leading, trailing and repeated slashes
      produce no token. */
  function ParsePath(p: string): (segs: seq<string>)
    decreases |p|
    ensures forall i :: 0 <= i < |segs| ==> 0 < |segs[i]| <= |p|
    ensures forall i, j :: 0 <= i < |segs| && 0 <= j < |segs[i]| ==> segs[i][j] != '/' && segs[i][j] in p
  {
    if |p| == 0 then []
    else if p[0] == '/' then ParsePath(p[1..])
    else
      var k := FirstSlash(p);
      [p[..k]] + ParsePath(p[k..])
  }

  /** A segment as strtok yields it: non-empty and free of slashes. */
  predicate IsSegment(s: string) {
    |s| > 0 && '/' !in s
  }

  /** The characters of `p` other than '/', in order. */
  function StripSlashes(p: string): (r: string)
    ensures |r| <= |p| && '/' !in r
  {
    if |p| == 0 then []
    else (if p[0] == '/' then [] else [p[0]]) + StripSlashes(p[1..])
  }

  /** The segments laid end to end. */
  function Concat(segs: seq<string>): string {
    if |segs| == 0 then [] else segs[0] + Concat(segs[1..])
  }

  /** Concat distributes over sequence concatenation. */
  lemma {:induction false} ConcatAppend(a: seq<string>, b: seq<string>)
    ensures Concat(a + b) == Concat(a) + Concat(b)
    decreases |a|
  {
    if |a| == 0 {
      assert a + b == b;
    } else {
      assert (a + b)[1..] == a[1..] + b;
      ConcatAppend(a[1..], b);
    }
  }

  /** Stripping a non-slash run keeps it whole. */
  lemma {:induction false} StripRun(s: string, k: nat)
    requires k <= |s| && forall i :: 0 <= i < k ==> s[i] != '/'
    ensures StripSlashes(s) == s[..k] + StripSlashes(s[k..])
    decreases k
  {
    if k > 0 {
      StripRun(s[1..], k - 1);
      assert s[1..][..k - 1] == s[1..k];
      assert s[1..][k - 1..] == s[k..];
      assert s[..k] == [s[0]] + s[1..k];
    }
  }

  /** Tokenizing loses exactly the slashes: the segments, concatenated, are the
      path with every '/' removed. */
  lemma {:induction false} ParsePathKeepsText(p: string)
    ensures Concat(ParsePath(p)) == StripSlashes(p)
    decreases |p|
  {
    if |p| == 0 {
    } else if p[0] == '/' {
      ParsePathKeepsText(p[1..]);
    } else {
      var k := FirstSlash(p);
      ParsePathKeepsText(p[k..]);
      StripRun(p, k);
      assert ([p[..k]] + ParsePath(p[k..]))[1..] == ParsePath(p[k..]);
    }
  }

  /** Every segment takes at least one character and all but the last are
      followed by a slash. */
  lemma {:induction false} SegmentCountBound(p: string)
    ensures 2 * |ParsePath(p)| <= |p| + 1
    decreases |p|
  {
    if |p| == 0 {
    } else if p[0] == '/' {
      SegmentCountBound(p[1..]);
    } else {
      var k := FirstSlash(p);
      if k < |p| {
        assert p[k..][0] == '/';
        assert ParsePath(p[k..]) == ParsePath(p[k + 1..]) by {
          assert p[k..][1..] == p[k + 1..];
        }
        SegmentCountBound(p[k + 1..]);
      } else {
        assert ParsePath(p[k..]) == [];
      }
    }
  }

  /** parse_path's buffers hold the path: the copy fits its MAXPATHLENGTH-byte
      buffer with the terminator, the table of MAXSEGMENTS rows keeps an empty
      row after the last segment (get_path_dir_no stops there), and each
      segment fits a MAXNAME-byte row. */
  predicate Tokenizable(p: string) {
    && |p| < MAXPATHLENGTH
    && |ParsePath(p)| < MAXSEGMENTS
    && forall i :: 0 <= i < |ParsePath(p)| ==> |ParsePath(p)[i]| < MAXNAME
  }

  /** A path that fits a MAXNAME-byte buffer, as the change- and
      remove-directory operations require, always tokenizes. */
  lemma ShortPathTokenizable(p: string)
    requires |p| < MAXNAME
    ensures Tokenizable(p)
  {
    SegmentCountBound(p);
  }

  /** The absolute path "/s0/s1/.../sn" that open and remove rebuild with
      strcat from the segments. */
  function JoinAbs(segs: seq<string>): (p: string)
    ensures |p| == |segs| + |Concat(segs)|
    ensures |segs| > 0 ==> p[0] == '/'
  {
    if |segs| == 0 then [] else "/" + segs[0] + JoinAbs(segs[1..])
  }

  /** A rebuilt path holds no NUL when its segments hold none. */
  lemma {:induction false} JoinAbsNoNul(segs: seq<string>)
    requires forall i :: 0 <= i < |segs| ==> '\0' !in segs[i]
    ensures '\0' !in JoinAbs(segs)
    decreases |segs|
  {
    if |segs| > 0 {
      JoinAbsNoNul(segs[1..]);
      assert JoinAbs(segs) == "/" + segs[0] + JoinAbs(segs[1..]);
    }
  }

  /** A segment followed by nothing or by a slash is split off whole. */
  lemma SegmentThenSlash(s: string, rest: string)
    requires IsSegment(s) && (|rest| == 0 || rest[0] == '/')
    ensures ParsePath(s + rest) == [s] + ParsePath(rest)
  {
    var p := s + rest;
    var k := FirstSlash(p);
    assert forall i :: 0 <= i < |s| ==> p[i] == s[i];
    assert |rest| > 0 ==> p[|s|] == rest[0];
    assert k == |s|;
    assert p[..k] == s && p[k..] == rest;
  }

  /** A leading slash yields no token: tokenizing skips it. With
      SegmentThenSlash and the empty path yielding no segments, this fixes the
      tokens of every path, repeated slashes included. */
  lemma SkipSlash(p: string)
    ensures ParsePath("/" + p) == ParsePath(p)
  {
    assert ("/" + p)[1..] == p;
  }

  /** Rebuilding a path from segments and tokenizing it again gives the
      segments back. */
  lemma {:induction false} ParseJoinAbs(segs: seq<string>)
    requires forall i :: 0 <= i < |segs| ==> IsSegment(segs[i])
    ensures ParsePath(JoinAbs(segs)) == segs
    decreases |segs|
  {
    if |segs| > 0 {
      var rest := JoinAbs(segs[1..]);
      ParseJoinAbs(segs[1..]);
      assert JoinAbs(segs) == "/" + (segs[0] + rest);
      assert ("/" + (segs[0] + rest))[1..] == segs[0] + rest;
      SegmentThenSlash(segs[0], rest);
    }
  }

  /** A bare name is a single segment. */
  lemma SingleSegment(s: string)
    requires IsSegment(s)
    ensures ParsePath(s) == [s]
  {
    SegmentThenSlash(s, []);
    assert s + [] == s;
  }

  /** The last segment. */
  function Last(segs: seq<string>): (s: string)
    requires |segs| > 0
    ensures s in segs
  {
    segs[|segs| - 1]
  }

  // ----- get_path_dir_no ------------------------------------------------------------

  /** The table parse_path fills: the segments, then empty rows up to
      MAXSEGMENTS (alloc_2d_char_array zeroes every row). */
  function SegmentTable(p: string): (rows: seq<string>)
    requires Tokenizable(p)
    ensures |rows| == MAXSEGMENTS
  {
    var segs := ParsePath(p);
    segs + seq(MAXSEGMENTS - |segs|, _ => "")
  }

  /** Index of the first empty row at or after `from`, or |rows|. */
  function FirstEmptyRow(rows: seq<string>, from: nat): (i: nat)
    requires from <= |rows|
    decreases |rows| - from
    ensures from <= i <= |rows|
    ensures forall j :: from <= j < i ==> rows[j] != ""
    ensures i < |rows| ==> rows[i] == ""
  {
    if from == |rows| then from
    else if rows[from] == "" then from
    else FirstEmptyRow(rows, from + 1)
  }

  /** get_path_dir_no: count rows until the first empty one. On a tokenized
      path this is the number of segments, because no segment is empty and
      the table always has an empty row after the last one. */
  function PathDirNo(p: string): (n: nat)
    requires Tokenizable(p)
    ensures n == |ParsePath(p)|
  {
    var rows := SegmentTable(p);
    var n := FirstEmptyRow(rows, 0);
    assert rows[|ParsePath(p)|] == "";
    assert forall j :: 0 <= j < |ParsePath(p)| ==> rows[j] == ParsePath(p)[j];
    n
  }

  // ----- Splitting a path into directory part and file name -----------------------------

  /** The directory part myfopen is evidently meant to hand to mkdir: every
      segment but the last, rebuilt as an absolute path. */
  function DirectoryPart(segs: seq<string>): (p: string)
    requires |segs| > 0
    ensures (forall i :: 0 <= i < |segs| ==> '\0' !in segs[i]) ==> '\0' !in p
  {
    var front := segs[..|segs| - 1];
    if forall i :: 0 <= i < |segs| ==> '\0' !in segs[i] then
      JoinAbsNoNul(front);
      JoinAbs(front)
    else
      JoinAbs(front)
  }

  /** The directory part, tokenized again, followed by the file name gives the
      segments back: the name is never created as a directory. */
  lemma DirectoryPartSplits(segs: seq<string>)
    requires |segs| > 0 && forall i :: 0 <= i < |segs| ==> IsSegment(segs[i])
    ensures ParsePath(DirectoryPart(segs)) + [Last(segs)] == segs
    ensures Last(segs) !in ParsePath(DirectoryPart(segs)) || Last(segs) in segs[..|segs| - 1]
  {
    ParseJoinAbs(segs[..|segs| - 1]);
    assert segs[..|segs| - 1] + [segs[|segs| - 1]] == segs;
  }
}
