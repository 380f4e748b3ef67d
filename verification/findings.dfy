/**
  Two places where the code does not do what it evidently means to, each
  modelled as written next to the corrected definition the rest of the model
  uses.
*/
module Findings {
  import opened FsTypes
  import opened Paths

  // ----- myfgetc returns char -------------------------------------------------------

  /** What a caller holding myfgetc's `char` result sees, on an ABI where
      `char` is signed: a byte from 128 up wraps to a negative value, and end
      of file is EOF (-1). */
  function AsCChar(g: GetResult): (v: int)
    ensures -128 <= v < 128
    ensures g.EndOfFile? ==> v == EOF
    ensures g.Got? ==> (v < 0 <==> g.b >= 128) && (v - g.b) % 256 == 0
  {
    match g
    case EndOfFile => EOF
    case Got(b) => if b >= 128 then b - 256 else b
  }

  /** As written, the data byte 0xFF and end of file are the same value, so a
      caller looping until EOF stops at the first 0xFF byte. */
  lemma ByteFFLooksLikeEof()
    ensures AsCChar(Got(255)) == AsCChar(EndOfFile)
    ensures Got(255) != EndOfFile
  {
  }

  /** The evidently intended result, as the C library's fgetc gives it: an
      `int` holding the byte as 0..255, or EOF. */
  function AsInt(g: GetResult): (v: int)
    ensures -1 <= v < 256
    ensures v == EOF <==> g.EndOfFile?
  {
    match g
    case EndOfFile => EOF
    case Got(b) => b
  }

  /** Decoding an `int` result back into a read. */
  function FromInt(v: int): (g: GetResult)
    requires -1 <= v < 256
    ensures g.EndOfFile? <==> v == EOF
  {
    if v == EOF then EndOfFile else Got(v)
  }

  /** With an `int` result every read outcome is recovered exactly: no byte can
      be mistaken for end of file. */
  lemma AsIntRoundTrip(g: GetResult)
    ensures FromInt(AsInt(g)) == g
  {
  }

  /** The `int` encoding is one-to-one. */
  lemma AsIntInjective(g: GetResult, h: GetResult)
    ensures AsInt(g) == AsInt(h) <==> g == h
  {
    AsIntRoundTrip(g);
    AsIntRoundTrip(h);
  }

  // ----- myfopen's directory part ----------------------------------------------------

  /** The path myfopen hands to mkdir for two or more segments, as written: the
      guard on appending a segment compares the index with the segment count
      inside a loop that stops at the count, so it always holds and every
      segment is appended, the file name included. */
  function DirectoryPartAsWritten(segs: seq<string>): (p: string)
    requires |segs| >= 2
    ensures |p| == |segs| + |Concat(segs)|
  {
    JoinAbs(segs)
  }

  /** As written, mkdir is asked to create the file name itself as a
      directory: it is among the segments mkdir walks. */
  lemma FileNameBecomesDirectory(segs: seq<string>)
    requires |segs| >= 2 && forall i :: 0 <= i < |segs| ==> IsSegment(segs[i])
    ensures ParsePath(DirectoryPartAsWritten(segs)) == segs
    ensures Last(segs) in ParsePath(DirectoryPartAsWritten(segs))
  {
    ParseJoinAbs(segs);
  }

  /** The smallest instance: opening "a/f", for any two segments `a` and `f`,
      makes mkdir create "/a/f", where the corrected split asks for "/a". */
  lemma OpenAFMakesDirectoryF(a: string, f: string)
    requires IsSegment(a) && IsSegment(f)
    ensures DirectoryPartAsWritten([a, f]) == "/" + a + "/" + f
    ensures ParsePath(DirectoryPartAsWritten([a, f])) == [a, f]
    ensures ParsePath(DirectoryPart([a, f])) == [a]
  {
    var segs := [a, f];
    FileNameBecomesDirectory(segs);
    DirectoryPartSplits(segs);
    assert segs[1..] == [f] && [f][1..] == [];
    assert JoinAbs(segs) == "/" + a + ("/" + f + JoinAbs([]));
    var front := ParsePath(DirectoryPart(segs));
    assert front + [f] == segs;
    assert |front| == 1 && front[0] == a;
  }
}
