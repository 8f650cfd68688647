/**
 * Reference strings of the taxonomy API and the node id derived from them:
 * Python's `ref.split("/")`, its inverse `"/".join(segments)`, and the
 * dedup id of the crawler.
 */
module Paths {
  import opened Wrappers
  import opened Json

  /** `s.split("/")`: the segments between slashes, empty ones included; never empty. */
  function Split(s: string): (segs: seq<string>)
    ensures |segs| >= 1
    decreases |s|
  {
    if s == [] then [""]
    else
      var init := Split(s[..|s| - 1]);
      if s[|s| - 1] == '/' then init + [""]
      else init[..|init| - 1] + [init[|init| - 1] + [s[|s| - 1]]]
  }

  /** `"/".join(segs)`. */
  function Join(segs: seq<string>): string
    requires |segs| >= 1
  {
    if |segs| == 1 then segs[0]
    else Join(segs[..|segs| - 1]) + "/" + segs[|segs| - 1]
  }

  /** True when no segment contains a slash. */
  predicate Segments(segs: seq<string>) {
    forall i :: 0 <= i < |segs| ==> '/' !in segs[i]
  }

  /** `s.split("/")[-1]`. */
  function LastSegment(s: string): string {
    var segs := Split(s);
    segs[|segs| - 1]
  }

  /** The path suffixes that do not identify a node on their own. */
  const ResidualSegments: set<string> := {"unspecified", "other"}

  /**
   * The dedup id of a child reference: its last segment, or the one before
   * it when the last is "unspecified" or "other"; a bare residual segment has
   * no segment before it and raises IndexError.
   */
  function NodeId(ref: string): Result<string, PyError> {
    var segs := Split(ref);
    var last := segs[|segs| - 1];
    if last in ResidualSegments then
      if |segs| >= 2 then Ok(segs[|segs| - 2]) else Err(IndexError)
    else Ok(last)
  }

  /** The index of the last slash in `s`, or -1 when there is none. */
  function LastSlash(s: string): (k: int)
    ensures -1 <= k < |s|
    ensures k >= 0 ==> s[k] == '/'
    ensures forall j :: k < j < |s| ==> s[j] != '/'
    decreases |s|
  {
    if s == [] then -1
    else if s[|s| - 1] == '/' then |s| - 1
    else LastSlash(s[..|s| - 1])
  }

  /** Splitting undoes joining: the segments of a string are slash-free and join back to it. */
  lemma {:induction false} SplitJoin(s: string)
    ensures Segments(Split(s))
    ensures Join(Split(s)) == s
    decreases |s|
  {
    var k := LastSlash(s);
    if k < 0 {
      SplitSegment(s);
    } else {
      var a, b := s[..k], s[k + 1..];
      assert s == a + "/" + b;
      SplitAppend(a, b);
      SplitJoin(a);
      var segs := Split(a) + [b];
      assert segs[..|segs| - 1] == Split(a);
    }
  }

  /** A slash-free string is one segment. */
  lemma {:induction false} SplitSegment(b: string)
    requires '/' !in b
    ensures Split(b) == [b]
    decreases |b|
  {
    if b != [] {
      var b' := b[..|b| - 1];
      assert '/' !in b' by {
        forall k | 0 <= k < |b'| ensures b'[k] != '/' { assert b'[k] == b[k]; }
      }
      SplitSegment(b');
      assert b == b' + [b[|b| - 1]];
    }
  }

  /** Appending "/" and a slash-free segment appends one segment. */
  lemma {:induction false} SplitAppend(a: string, b: string)
    requires '/' !in b
    ensures Split(a + "/" + b) == Split(a) + [b]
    decreases |b|
  {
    if b == [] {
      assert (a + "/" + b)[..|a|] == a;
    } else {
      var b' := b[..|b| - 1];
      assert '/' !in b' by {
        forall k | 0 <= k < |b'| ensures b'[k] != '/' { assert b'[k] == b[k]; }
      }
      SplitAppend(a, b');
      var s := a + "/" + b;
      assert s[..|s| - 1] == a + "/" + b';
      assert s[|s| - 1] == b[|b| - 1];
      var init := Split(a) + [b'];
      assert init[..|init| - 1] == Split(a);
      assert b' + [b[|b| - 1]] == b;
    }
  }

  /** Joining undoes splitting: slash-free segments are recovered from their join. */
  lemma {:induction false} JoinSplit(segs: seq<string>)
    requires |segs| >= 1 && Segments(segs)
    ensures Split(Join(segs)) == segs
    decreases |segs|
  {
    if |segs| == 1 {
      SplitSegment(segs[0]);
    } else {
      var init := segs[..|segs| - 1];
      JoinSplit(init);
      SplitAppend(Join(init), segs[|segs| - 1]);
      assert init + [segs[|segs| - 1]] == segs;
    }
  }

  /** The root's id is the text after its last slash. */
  lemma LastSegmentOf(prefix: string, id: string)
    requires '/' !in id
    ensures LastSegment(prefix + "/" + id) == id
    ensures LastSegment(id) == id
  {
    SplitAppend(prefix, id);
    SplitSegment(id);
  }

  /** A reference whose last segment is an ordinary id is deduplicated by that id. */
  lemma NodeIdPlain(prefix: string, id: string)
    requires '/' !in id && id !in ResidualSegments
    ensures NodeId(prefix + "/" + id) == Ok(id)
    ensures NodeId(id) == Ok(id)
  {
    SplitAppend(prefix, id);
    SplitSegment(id);
  }

  /** `.../<id>/unspecified` and `.../<id>/other` are deduplicated by `<id>`. */
  lemma NodeIdResidual(prefix: string, id: string, residual: string)
    requires '/' !in id && residual in ResidualSegments
    ensures NodeId(prefix + "/" + id + "/" + residual) == Ok(id)
    ensures NodeId(id + "/" + residual) == Ok(id)
  {
    assert '/' !in residual;
    SplitAppend(prefix + "/" + id, residual);
    SplitAppend(prefix, id);
    SplitAppend(id, residual);
    SplitSegment(id);
  }

  /** A bare "unspecified" or "other" has no parent segment: the source's `split("/")[-2]` fails. */
  lemma NodeIdBareResidual(residual: string)
    requires residual in ResidualSegments
    ensures NodeId(residual) == Err(IndexError)
  {
    assert '/' !in residual;
    SplitSegment(residual);
  }

  /** A derived id is always a single segment: one of the last two of the reference. */
  lemma NodeIdIsSegment(ref: string)
    requires NodeId(ref).Ok?
    ensures '/' !in NodeId(ref).value
    ensures var segs := Split(ref); NodeId(ref).value in segs[|segs| - 2 + (if |segs| >= 2 then 0 else 1)..]
  {
    SplitJoin(ref);
  }

  /** The example reference ".../123/other" resolves to "123". */
  lemma NodeIdExample()
    ensures NodeId(".../123/other") == Ok("123")
  {
    NodeIdResidual("...", "123", "other");
    assert "..." + "/" + "123" + "/" + "other" == ".../123/other";
  }
}
