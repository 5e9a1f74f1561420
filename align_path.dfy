/**
 * Run-length encoded alignment paths (the ALIGNPATH segment types), the
 * alignment result, and the path helper updatePath whose body is not part of
 * this model. The functions Expand, QueryLength and RefLength give a path its
 * meaning: the sequence of unit operations it stands for and how many query
 * and reference symbols it covers.
 */
module AlignPath {

  /** Segment kinds; NONE is the type of a segment that has not been opened. */
  datatype SegType = NONE | MATCH | INSERT | DELETE | SOFT_CLIP

  datatype PathSegment = PathSegment(segType: SegType, length: nat)

  /** A default-constructed path segment. */
  const EmptySegment: PathSegment := PathSegment(NONE, 0)

  /** Score, path, and 0-based reference offset of the aligned region. */
  datatype AlignmentResult = AlignmentResult(score: int, apath: seq<PathSegment>, beginPos: nat)

  predicate ConsumesQuery(t: SegType) {
    t == MATCH || t == INSERT || t == SOFT_CLIP
  }

  predicate ConsumesRef(t: SegType) {
    t == MATCH || t == DELETE
  }

  /** Number of query symbols a path covers (soft-clipped ones included). */
  function QueryLength(p: seq<PathSegment>): nat {
    if p == [] then 0
    else QueryLength(p[..|p| - 1]) + (if ConsumesQuery(p[|p| - 1].segType) then p[|p| - 1].length else 0)
  }

  /** Number of reference symbols a path covers. */
  function RefLength(p: seq<PathSegment>): nat {
    if p == [] then 0
    else RefLength(p[..|p| - 1]) + (if ConsumesRef(p[|p| - 1].segType) then p[|p| - 1].length else 0)
  }

  /** n copies of one unit operation. */
  function Repeat(t: SegType, n: nat): (r: seq<SegType>)
    ensures |r| == n && forall k :: 0 <= k < n ==> r[k] == t
  {
    seq(n, _ => t)
  }

  /** The unit operations a run-length encoded path stands for. */
  function Expand(p: seq<PathSegment>): seq<SegType> {
    if p == [] then []
    else Expand(p[..|p| - 1]) + Repeat(p[|p| - 1].segType, p[|p| - 1].length)
  }

  function Reverse<T>(s: seq<T>): (r: seq<T>)
    ensures |r| == |s|
  {
    if s == [] then [] else Reverse(s[1..]) + [s[0]]
  }

  /** No two neighbouring segments have the same kind. */
  ghost predicate Coalesced(p: seq<PathSegment>) {
    forall i, j :: 0 <= i < j < |p| && j == i + 1 ==> p[i].segType != p[j].segType
  }

  /** updatePath(apath, ps, t): when the open segment ps has another type than
      t, push it (unless it was never opened) and open a fresh segment of type
      t and length 0. The result is the new path and the new open segment. */
  function UpdatePath(apath: seq<PathSegment>, ps: PathSegment, t: SegType): (r: (seq<PathSegment>, PathSegment))
    ensures r.1.segType == t
    ensures ps.segType == t ==> r == (apath, ps)
    ensures ps.segType != t ==> r.1.length == 0 && r.0 == apath + (if ps.segType == NONE then [] else [ps])
  {
    if ps.segType != t then
      (if ps.segType != NONE then apath + [ps] else apath, PathSegment(t, 0))
    else
      (apath, ps)
  }

  lemma {:induction false} ReverseAt<T>(s: seq<T>, k: nat)
    requires k < |s|
    ensures Reverse(s)[k] == s[|s| - 1 - k]
  {
    if k < |s| - 1 {
      ReverseAt(s[1..], k);
    }
  }

  lemma {:induction false} ReverseAppend<T>(a: seq<T>, b: seq<T>)
    ensures Reverse(a + b) == Reverse(b) + Reverse(a)
  {
    if a == [] {
      assert a + b == b;
    } else {
      assert (a + b)[1..] == a[1..] + b;
      ReverseAppend(a[1..], b);
    }
  }

  lemma RepeatReverse(t: SegType, n: nat)
    ensures Reverse(Repeat(t, n)) == Repeat(t, n)
  {
    forall k | 0 <= k < n ensures Reverse(Repeat(t, n))[k] == t {
      ReverseAt(Repeat(t, n), k);
    }
  }

  lemma {:induction false} QueryLengthAppend(a: seq<PathSegment>, b: seq<PathSegment>)
    ensures QueryLength(a + b) == QueryLength(a) + QueryLength(b)
    ensures RefLength(a + b) == RefLength(a) + RefLength(b)
  {
    if b == [] {
      assert a + b == a;
    } else {
      assert (a + b)[..|a + b| - 1] == a + b[..|b| - 1];
      QueryLengthAppend(a, b[..|b| - 1]);
    }
  }

  /** Reversing a path does not change how much query and reference it covers. */
  lemma {:induction false} LengthsReverse(p: seq<PathSegment>)
    ensures QueryLength(Reverse(p)) == QueryLength(p)
    ensures RefLength(Reverse(p)) == RefLength(p)
  {
    if p != [] {
      LengthsReverse(p[1..]);
      QueryLengthAppend(Reverse(p[1..]), [p[0]]);
      assert p == [p[0]] + p[1..];
      QueryLengthAppend([p[0]], p[1..]);
    }
  }

  lemma {:induction false} ExpandAppend(a: seq<PathSegment>, b: seq<PathSegment>)
    ensures Expand(a + b) == Expand(a) + Expand(b)
  {
    if b == [] {
      assert a + b == a;
    } else {
      assert (a + b)[..|a + b| - 1] == a + b[..|b| - 1];
      ExpandAppend(a, b[..|b| - 1]);
    }
  }

  /** Reversing a path reverses the operations it stands for. */
  lemma {:induction false} ExpandReverse(p: seq<PathSegment>)
    ensures Expand(Reverse(p)) == Reverse(Expand(p))
  {
    if p != [] {
      var a, x := p[..|p| - 1], p[|p| - 1];
      assert p == a + [x];
      ReverseAppend(a, [x]);
      assert Reverse([x]) == [x];
      ExpandAppend([x], Reverse(a));
      assert [x][..0] == [];
      ExpandReverse(a);
      ReverseAppend(Expand(a), Repeat(x.segType, x.length));
      RepeatReverse(x.segType, x.length);
    }
  }

  /** Reversing a coalesced path leaves it coalesced. */
  lemma CoalescedReverse(p: seq<PathSegment>)
    requires Coalesced(p)
    ensures Coalesced(Reverse(p))
  {
    var r := Reverse(p);
    forall i, j | 0 <= i < j < |r| && j == i + 1 ensures r[i].segType != r[j].segType {
      ReverseAt(p, i);
      ReverseAt(p, j);
      assert r[i] == p[|p| - 1 - i] && r[j] == p[|p| - 1 - j];
    }
  }

  /** Reversal keeps the shape of a path: positive, typed segments, soft-clips
      only at its two ends, and no two neighbours of the same kind. */
  lemma ReverseShape(p: seq<PathSegment>)
    requires forall k :: 0 <= k < |p| ==> p[k].length > 0 && p[k].segType != NONE
    requires forall k :: 0 < k < |p| - 1 ==> p[k].segType != SOFT_CLIP
    ensures forall k :: 0 <= k < |Reverse(p)| ==> Reverse(p)[k].length > 0 && Reverse(p)[k].segType != NONE
    ensures forall k :: 0 < k < |Reverse(p)| - 1 ==> Reverse(p)[k].segType != SOFT_CLIP
    ensures Coalesced(p) ==> Coalesced(Reverse(p))
  {
    forall k | 0 <= k < |p| ensures Reverse(p)[k] == p[|p| - 1 - k] {
      ReverseAt(p, k);
    }
    if Coalesced(p) {
      CoalescedReverse(p);
    }
  }

  /** The meaning and coverage of a one-segment path. */
  lemma Single(x: PathSegment)
    ensures QueryLength([x]) == (if ConsumesQuery(x.segType) then x.length else 0)
    ensures RefLength([x]) == (if ConsumesRef(x.segType) then x.length else 0)
    ensures Expand([x]) == Repeat(x.segType, x.length)
  {
    assert [x][..0] == [];
  }

  /** The path as it would stand if the open segment ps were pushed now. */
  function Closed(apath: seq<PathSegment>, ps: PathSegment): seq<PathSegment> {
    if ps.segType == NONE then apath else apath + [ps]
  }

  /** Append one unit operation t to a path: lengthen the last segment when it
      has type t, otherwise start a segment of length 1. */
  function Push(p: seq<PathSegment>, t: SegType): seq<PathSegment> {
    if p != [] && p[|p| - 1].segType == t then p[..|p| - 1] + [PathSegment(t, p[|p| - 1].length + 1)]
    else p + [PathSegment(t, 1)]
  }

  /** Every segment is opened and non-empty. */
  ghost predicate Positive(p: seq<PathSegment>) {
    forall k :: 0 <= k < |p| ==> p[k].length > 0 && p[k].segType != NONE
  }

  /** updatePath(apath, ps, t) followed by ps.length++ pushes t onto the
      closed path. */
  lemma UpdatePathPushes(apath: seq<PathSegment>, ps: PathSegment, t: SegType)
    requires ps.segType == NONE ==> ps.length == 0 && apath == []
    requires ps.segType != NONE ==> ps.length > 0
    requires t != NONE
    ensures var u := UpdatePath(apath, ps, t);
            Closed(u.0, u.1.(length := u.1.length + 1)) == Push(Closed(apath, ps), t)
  {
  }

  /** Pushing one unit operation appends it to the meaning of a path and
      grows the coverage by what it consumes. */
  lemma {:induction false} PushMeaning(p: seq<PathSegment>, t: SegType)
    ensures var p' := Push(p, t);
            p' != [] && p'[|p'| - 1].segType == t &&
            Expand(p') == Expand(p) + [t] &&
            QueryLength(p') == QueryLength(p) + (if ConsumesQuery(t) then 1 else 0) &&
            RefLength(p') == RefLength(p) + (if ConsumesRef(t) then 1 else 0)
  {
    var p' := Push(p, t);
    if p != [] && p[|p| - 1].segType == t {
      var a, x := p[..|p| - 1], p[|p| - 1];
      assert p == a + [x];
      assert p'[..|p'| - 1] == a;
      assert Repeat(t, x.length + 1) == Repeat(t, x.length) + [t];
    } else {
      assert p'[..|p'| - 1] == p;
      assert Repeat(t, 1) == [t];
    }
  }

  /** Pushing one unit operation keeps a path positive and coalesced, and
      adds no interior soft-clip when the operation is not SOFT_CLIP. */
  lemma PushShape(p: seq<PathSegment>, t: SegType)
    requires t != NONE
    ensures var p' := Push(p, t);
            (Positive(p) ==> Positive(p')) &&
            (t != SOFT_CLIP && (forall k :: 0 < k < |p| ==> p[k].segType != SOFT_CLIP) ==>
               forall k :: 0 < k < |p'| ==> p'[k].segType != SOFT_CLIP) &&
            (Coalesced(p) ==> Coalesced(p'))
  {
  }
}
