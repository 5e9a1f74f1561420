/**
 * The backtrace shared by the single-reference aligners: from the best
 * terminal cell, replay the pointer matrix backwards to the matrix edge,
 * emitting run-length segments, add the soft-clips for query that hangs off
 * either end of the reference, and reverse the path into forward order.
 *
 * The pointer matrix is a three-dimensional array indexed by query position,
 * reference position and the code (Index) of the state whose predecessor is
 * stored. A variant that stores three states cannot be asked about JUMP or
 * JUMPINS, which the precondition ClosedPointers expresses.
 */
module SingleRefAlignerShared {
  import opened AlignerBase
  import opened AlignPath

  /** The pointer matrix covers the query and reference positions, and every
      predecessor stored at a cell with both indices at least 1 is a state the
      matrix records. Row 0 and column 0 are never read. */
  ghost predicate ClosedPointers(ptr: array3<AlignState>, querySize: nat, refSize: nat)
    reads ptr
  {
    querySize < ptr.Length0 && refSize < ptr.Length1 &&
    forall q, r, k :: 1 <= q <= querySize && 1 <= r <= refSize && 0 <= k < ptr.Length2 ==>
      ptr[q, r, k].Index() < ptr.Length2
  }

  /** The unit operation one backtrace step in state s emits. */
  function StepOp(s: AlignState): (t: SegType)
    ensures t == SegType.MATCH || t == SegType.DELETE || t == SegType.INSERT
    ensures s.MATCH? <==> t == SegType.MATCH
    ensures (s.DELETE? || s.JUMP?) <==> t == SegType.DELETE
  {
    match s
    case MATCH => SegType.MATCH
    case DELETE | JUMP => SegType.DELETE
    case INSERT | JUMPINS => SegType.INSERT
  }

  /** The cell one backtrace step in state s moves to from (q, r): MATCH
      consumes a query and a reference symbol, DELETE and JUMP a reference
      symbol only, INSERT and JUMPINS a query symbol only. */
  function Next(q: nat, r: nat, s: AlignState): (n: (nat, nat))
    requires q > 0 && r > 0
    ensures n.0 + n.1 < q + r
    ensures n.0 == (if StepOp(s) == SegType.DELETE then q else q - 1)
    ensures n.1 == (if StepOp(s) == SegType.INSERT then r else r - 1)
  {
    if s.MATCH? then (q - 1, r - 1)
    else if s.DELETE? || s.JUMP? then (q, r - 1)
    else (q - 1, r)
  }

  /** The unit operations the backward walk from cell (q, r) in state s emits,
      in the order it emits them (last alignment column first). */
  ghost function Walk(ptr: array3<AlignState>, querySize: nat, refSize: nat, q: nat, r: nat, s: AlignState): seq<SegType>
    reads ptr
    requires ClosedPointers(ptr, querySize, refSize)
    requires q <= querySize && r <= refSize && s.Index() < ptr.Length2
    decreases q + r
  {
    if q == 0 || r == 0 then []
    else
      var n := Next(q, r, s);
      [StepOp(s)] + Walk(ptr, querySize, refSize, n.0, n.1, ptr[q, r, s.Index()])
  }

  /** The cell at which the backward walk from (q, r) in state s stops: it
      stops as soon as either index is 0, and it never moves forward. */
  ghost function WalkEnd(ptr: array3<AlignState>, querySize: nat, refSize: nat, q: nat, r: nat, s: AlignState): (e: (nat, nat))
    reads ptr
    requires ClosedPointers(ptr, querySize, refSize)
    requires q <= querySize && r <= refSize && s.Index() < ptr.Length2
    ensures e.0 == 0 || e.1 == 0
    ensures e.0 <= q && e.1 <= r
    decreases q + r
  {
    if q == 0 || r == 0 then (q, r)
    else
      var n := Next(q, r, s);
      WalkEnd(ptr, querySize, refSize, n.0, n.1, ptr[q, r, s.Index()])
  }

  /** What backTraceAlignment promises about its result for the terminal
      btraceInput: the path the walk spells out (TracedPath) and, for a
      terminal in reference column 0, exactly the two soft-clips. */
  ghost predicate Backtraced(ptr: array3<AlignState>, querySize: nat, refSize: nat,
                             btraceInput: BackTrace, result: AlignmentResult)
    reads ptr
  {
    ClosedPointers(ptr, querySize, refSize) &&
    btraceInput.queryBegin <= querySize && btraceInput.refBegin <= refSize &&
    btraceInput.state.Index() < ptr.Length2 &&
    TracedPath(ptr, querySize, refSize, btraceInput, result) &&
    (btraceInput.refBegin == 0 ==> result.apath == EdgeClips(querySize, btraceInput.queryBegin))
  }

  /** The score is the terminal's; the path spells out exactly the backward
      walk, reversed, between the two soft-clips, accounts for the whole
      query and ends its aligned span at the terminal; segments are
      non-empty and typed, soft-clips sit only at the ends, and the path is
      coalesced unless both soft-clips are present with no walk between
      them. */
  ghost predicate TracedPath(ptr: array3<AlignState>, querySize: nat, refSize: nat,
                             btraceInput: BackTrace, result: AlignmentResult)
    reads ptr
    requires ClosedPointers(ptr, querySize, refSize)
    requires btraceInput.queryBegin <= querySize && btraceInput.refBegin <= refSize
    requires btraceInput.state.Index() < ptr.Length2
  {
    result.score == btraceInput.max &&
    (var e := WalkEnd(ptr, querySize, refSize, btraceInput.queryBegin, btraceInput.refBegin, btraceInput.state);
     result.beginPos == e.1 &&
     Expand(result.apath) ==
       Repeat(SegType.SOFT_CLIP, e.0)
       + Reverse(Walk(ptr, querySize, refSize, btraceInput.queryBegin, btraceInput.refBegin, btraceInput.state))
       + Repeat(SegType.SOFT_CLIP, querySize - btraceInput.queryBegin)) &&
    QueryLength(result.apath) == querySize &&
    result.beginPos + RefLength(result.apath) == btraceInput.refBegin &&
    (forall k :: 0 <= k < |result.apath| ==> result.apath[k].length > 0 && result.apath[k].segType != NONE) &&
    (forall k :: 0 < k < |result.apath| - 1 ==> result.apath[k].segType != SegType.SOFT_CLIP) &&
    (btraceInput.refBegin > 0 || btraceInput.queryBegin == querySize ==> Coalesced(result.apath))
  }

  /** The path of a terminal in reference column 0: the query before the
      terminal and the query after it, each as one soft-clip when non-empty. */
  function EdgeClips(querySize: nat, q0: nat): seq<PathSegment>
    requires q0 <= querySize
  {
    (if q0 > 0 then [PathSegment(SegType.SOFT_CLIP, q0)] else [])
    + (if q0 < querySize then [PathSegment(SegType.SOFT_CLIP, querySize - q0)] else [])
  }

  /** The open segment before the walk: the trailing soft-clip, if any. */
  function TrailingClip(querySize: nat, q0: nat): PathSegment
    requires q0 <= querySize
  {
    if q0 < querySize then PathSegment(SegType.SOFT_CLIP, querySize - q0) else EmptySegment
  }

  /** backTraceAlignment: rebuild the alignment path from the pointer matrix
      and the best terminal cell btraceInput (before exact-match/mismatch
      splitting of the MATCH segments). */
  method BackTraceAlignment(querySize: nat, refSize: nat, ptr: array3<AlignState>, btraceInput: BackTrace)
    returns (result: AlignmentResult)
    requires btraceInput.isInit
    requires btraceInput.refBegin <= refSize && btraceInput.queryBegin <= querySize
    requires ClosedPointers(ptr, querySize, refSize) && btraceInput.state.Index() < ptr.Length2
    ensures Backtraced(ptr, querySize, refSize, btraceInput, result)
  {
    var btrace := btraceInput;
    var apath: seq<PathSegment> := [];
    var ps := EmptySegment;

    // trailing soft-clip when the query goes off the end of the reference
    if btrace.queryBegin < querySize {
      ps := PathSegment(SegType.SOFT_CLIP, querySize - btrace.queryBegin);
    }

    ghost var q0, r0 := btraceInput.queryBegin, btraceInput.refBegin;
    ghost var ops := Repeat(SegType.SOFT_CLIP, querySize - q0);
    StartPath(ps, querySize, q0, r0);

    while btrace.queryBegin > 0 && btrace.refBegin > 0
      invariant Tracing(ptr, querySize, refSize, btraceInput, btrace, apath, ps, ops)
      decreases btrace.queryBegin + btrace.refBegin
    {
      btrace, apath, ps, ops := TraceStep(ptr, querySize, refSize, btraceInput, btrace, apath, ps, ops);
    }

    result := CloseAlignment(ptr, querySize, refSize, btraceInput, btrace, apath, ps, ops);
  }

  /** After the loop of backTraceAlignment: push the open segment and the
      leading soft-clip, and reverse the path into forward order. */
  method CloseAlignment(ptr: array3<AlignState>, querySize: nat, refSize: nat, ghost btraceInput: BackTrace,
                        btrace: BackTrace, apath: seq<PathSegment>, ps: PathSegment, ghost ops: seq<SegType>)
    returns (result: AlignmentResult)
    requires Tracing(ptr, querySize, refSize, btraceInput, btrace, apath, ps, ops)
    requires btrace.queryBegin == 0 || btrace.refBegin == 0
    ensures Backtraced(ptr, querySize, refSize, btraceInput, result)
  {
    var path := apath;
    if ps.segType != NONE {
      path := path + [ps];
    }

    // leading soft-clip when the query goes off the start of the reference
    if btrace.queryBegin != 0 {
      path := path + [PathSegment(SegType.SOFT_CLIP, btrace.queryBegin)];
    }

    result := AlignmentResult(btrace.max, Reverse(path), btrace.refBegin);
    assert path == WithLead(Closed(apath, ps), btrace.queryBegin);
    TracingDone(ptr, querySize, refSize, btraceInput, btrace, apath, ps, ops, result);
    if btraceInput.refBegin == 0 {
      EdgeTrace(ptr, querySize, refSize, btraceInput, btrace, apath, ps, ops);
    }
  }

  /** One iteration of the backtrace loop: emit the operation of the current
      state into the open segment, step to the predecessor cell and take the
      predecessor state from the pointer matrix. */
  method TraceStep(ptr: array3<AlignState>, querySize: nat, refSize: nat, ghost btraceInput: BackTrace,
                   btrace: BackTrace, apath: seq<PathSegment>, ps: PathSegment, ghost ops: seq<SegType>)
    returns (btrace': BackTrace, apath': seq<PathSegment>, ps': PathSegment, ghost ops': seq<SegType>)
    requires Tracing(ptr, querySize, refSize, btraceInput, btrace, apath, ps, ops)
    requires btrace.queryBegin > 0 && btrace.refBegin > 0
    ensures Tracing(ptr, querySize, refSize, btraceInput, btrace', apath', ps', ops')
    ensures btrace'.queryBegin + btrace'.refBegin < btrace.queryBegin + btrace.refBegin
  {
    var nextMatrix := ptr[btrace.queryBegin, btrace.refBegin, btrace.state.Index()];
    // the state decides the segment type (StepOp) and which indices the
    // step consumes (Next); both are closed over the five states
    var segType := StepOp(btrace.state);
    var u := UpdatePath(apath, ps, segType);
    apath', ps' := u.0, u.1;
    var n := Next(btrace.queryBegin, btrace.refBegin, btrace.state);
    btrace' := btrace.(queryBegin := n.0, refBegin := n.1);
    btrace' := btrace'.(state := nextMatrix);
    ps' := ps'.(length := ps'.length + 1);
    TracingStep(ptr, querySize, refSize, btraceInput, btrace, apath, ps, ops);
    ops' := ops + [segType];
  }

  /** What the path built so far records, in the middle of the walk: the
      closed path stands for the operations ops, covers the query except the
      first q symbols and the reference from r up to r0, and has the shape of
      a final path. A trailing soft-clip as last segment means no step has
      been taken yet. */
  ghost predicate PathBuilt(apath: seq<PathSegment>, ps: PathSegment, q: nat, r: nat,
                            querySize: nat, q0: nat, r0: nat, ops: seq<SegType>)
  {
    (ps.segType == NONE ==> ps.length == 0 && apath == []) &&
    (ps.segType != NONE ==> ps.length > 0) &&
    Recorded(Closed(apath, ps), q, r, querySize, q0, r0, ops)
  }

  /** The closed backward path p records ops and has the shape of a final
      path. */
  ghost predicate Recorded(p: seq<PathSegment>, q: nat, r: nat, querySize: nat, q0: nat, r0: nat, ops: seq<SegType>) {
    Expand(p) == ops &&
    QueryLength(p) + q == querySize && RefLength(p) + r == r0 &&
    Positive(p) && Coalesced(p) &&
    (forall k :: 0 < k < |p| ==> p[k].segType != SOFT_CLIP) &&
    (p != [] && p[|p| - 1].segType == SOFT_CLIP ==> q == q0 && r == r0 && q0 < querySize)
  }

  /** Pushing one step of the walk keeps the record. */
  lemma PushRecorded(p: seq<PathSegment>, q: nat, r: nat, querySize: nat, q0: nat, r0: nat, ops: seq<SegType>, t: SegType)
    requires Recorded(p, q, r, querySize, q0, r0, ops)
    requires q > 0 && r > 0
    requires t == SegType.MATCH || t == SegType.DELETE || t == SegType.INSERT
    ensures Recorded(Push(p, t), if t == SegType.DELETE then q else q - 1, if t == SegType.INSERT then r else r - 1,
                     querySize, q0, r0, ops + [t])
  {
    PushMeaning(p, t);
    PushShape(p, t);
  }

  /** The path holds just the trailing soft-clip, if any, before the walk. */
  lemma StartPath(ps: PathSegment, querySize: nat, q0: nat, r0: nat)
    requires q0 <= querySize
    requires ps == TrailingClip(querySize, q0)
    ensures PathBuilt([], ps, q0, r0, querySize, q0, r0, Repeat(SOFT_CLIP, querySize - q0))
  {
    if q0 < querySize {
      assert Closed([], ps) == [ps];
      Single(ps);
    } else {
      assert Closed([], ps) == [];
    }
  }

  /** The loop invariant of the backward walk from btraceInput, now at
      btrace: the walk so far emitted ops (after the trailing soft-clip), the
      rest of the walk from btrace completes it, and the path built so far
      records ops. */
  ghost predicate Tracing(ptr: array3<AlignState>, querySize: nat, refSize: nat, btraceInput: BackTrace,
                          btrace: BackTrace, apath: seq<PathSegment>, ps: PathSegment, ops: seq<SegType>)
    reads ptr
  {
    ClosedPointers(ptr, querySize, refSize) &&
    btraceInput.queryBegin <= querySize && btraceInput.refBegin <= refSize &&
    btraceInput.state.Index() < ptr.Length2 &&
    btrace.queryBegin <= querySize && btrace.refBegin <= refSize &&
    btrace.state.Index() < ptr.Length2 && btrace.max == btraceInput.max &&
    WalkEnd(ptr, querySize, refSize, btrace.queryBegin, btrace.refBegin, btrace.state)
      == WalkEnd(ptr, querySize, refSize, btraceInput.queryBegin, btraceInput.refBegin, btraceInput.state) &&
    ops + Walk(ptr, querySize, refSize, btrace.queryBegin, btrace.refBegin, btrace.state)
      == Repeat(SOFT_CLIP, querySize - btraceInput.queryBegin)
         + Walk(ptr, querySize, refSize, btraceInput.queryBegin, btraceInput.refBegin, btraceInput.state) &&
    PathBuilt(apath, ps, btrace.queryBegin, btrace.refBegin, querySize, btraceInput.queryBegin, btraceInput.refBegin, ops)
  }

  /** One iteration of the walk keeps Tracing. */
  lemma TracingStep(ptr: array3<AlignState>, querySize: nat, refSize: nat, btraceInput: BackTrace,
                    btrace: BackTrace, apath: seq<PathSegment>, ps: PathSegment, ops: seq<SegType>)
    requires Tracing(ptr, querySize, refSize, btraceInput, btrace, apath, ps, ops)
    requires btrace.queryBegin > 0 && btrace.refBegin > 0
    ensures var t := StepOp(btrace.state);
            var u := UpdatePath(apath, ps, t);
            var n := Next(btrace.queryBegin, btrace.refBegin, btrace.state);
            var next := ptr[btrace.queryBegin, btrace.refBegin, btrace.state.Index()];
            Tracing(ptr, querySize, refSize, btraceInput,
                    btrace.(queryBegin := n.0, refBegin := n.1).(state := next),
                    u.0, u.1.(length := u.1.length + 1), ops + [t])
  {
    var t := StepOp(btrace.state);
    PathStep(apath, ps, btrace.queryBegin, btrace.refBegin, querySize, btraceInput.queryBegin, btraceInput.refBegin, ops, t);
    var n := Next(btrace.queryBegin, btrace.refBegin, btrace.state);
    var next := ptr[btrace.queryBegin, btrace.refBegin, btrace.state.Index()];
    var rest := Walk(ptr, querySize, refSize, n.0, n.1, next);
    assert Walk(ptr, querySize, refSize, btrace.queryBegin, btrace.refBegin, btrace.state) == [t] + rest;
    assert ops + ([t] + rest) == (ops + [t]) + rest;
  }

  /** One step of the walk emitting the unit operation t keeps PathBuilt. */
  lemma PathStep(apath: seq<PathSegment>, ps: PathSegment, q: nat, r: nat,
                 querySize: nat, q0: nat, r0: nat, ops: seq<SegType>, t: SegType)
    requires PathBuilt(apath, ps, q, r, querySize, q0, r0, ops)
    requires q > 0 && r > 0
    requires t == SegType.MATCH || t == SegType.DELETE || t == SegType.INSERT
    ensures var u := UpdatePath(apath, ps, t);
            PathBuilt(u.0, u.1.(length := u.1.length + 1),
                      if t == SegType.DELETE then q else q - 1,
                      if t == SegType.INSERT then r else r - 1,
                      querySize, q0, r0, ops + [t])
  {
    UpdatePathPushes(apath, ps, t);
    PushRecorded(Closed(apath, ps), q, r, querySize, q0, r0, ops, t);
  }

  /** The backward path with the leading soft-clip of length lead pushed. */
  function WithLead(p: seq<PathSegment>, lead: nat): seq<PathSegment> {
    if lead != 0 then p + [PathSegment(SegType.SOFT_CLIP, lead)] else p
  }

  /** When the walk has reached the matrix edge, the forward path is the
      closed backward path with the leading soft-clip, reversed, and it is
      the path the walk spells out. */
  lemma TracingDone(ptr: array3<AlignState>, querySize: nat, refSize: nat, btraceInput: BackTrace,
                    btrace: BackTrace, apath: seq<PathSegment>, ps: PathSegment, ops: seq<SegType>, result: AlignmentResult)
    requires Tracing(ptr, querySize, refSize, btraceInput, btrace, apath, ps, ops)
    requires btrace.queryBegin == 0 || btrace.refBegin == 0
    requires result == AlignmentResult(btrace.max, Reverse(WithLead(Closed(apath, ps), btrace.queryBegin)), btrace.refBegin)
    ensures TracedPath(ptr, querySize, refSize, btraceInput, result)
  {
    var walk := Walk(ptr, querySize, refSize, btraceInput.queryBegin, btraceInput.refBegin, btraceInput.state);
    assert ops + [] == ops;
    ForwardPath(Closed(apath, ps), btrace.queryBegin, Repeat(SegType.SOFT_CLIP, querySize - btraceInput.queryBegin), walk);
  }

  /** From a terminal in reference column 0 the walk is empty: the loop
      ends where it started, and the forward path is just the two
      soft-clips. */
  lemma EdgeTrace(ptr: array3<AlignState>, querySize: nat, refSize: nat, btraceInput: BackTrace,
                  btrace: BackTrace, apath: seq<PathSegment>, ps: PathSegment, ops: seq<SegType>)
    requires Tracing(ptr, querySize, refSize, btraceInput, btrace, apath, ps, ops)
    requires btraceInput.refBegin == 0
    ensures btrace.queryBegin == btraceInput.queryBegin && btrace.refBegin == 0
    ensures Reverse(WithLead(Closed(apath, ps), btrace.queryBegin)) == EdgeClips(querySize, btraceInput.queryBegin)
  {
    var q0 := btraceInput.queryBegin;
    var p := Closed(apath, ps);
    assert btrace.refBegin == 0;
    assert Walk(ptr, querySize, refSize, btrace.queryBegin, btrace.refBegin, btrace.state) == [];
    assert Walk(ptr, querySize, refSize, q0, btraceInput.refBegin, btraceInput.state) == [];
    assert ops + [] == ops;
    assert Repeat(SegType.SOFT_CLIP, querySize - q0) + [] == Repeat(SegType.SOFT_CLIP, querySize - q0);
    ClipsOnlyPath(p, btrace.queryBegin, btrace.refBegin, querySize, q0, ops);
    ClipsOnly(querySize, q0);
  }

  /** A closed backward path that records only the trailing soft-clip, in a
      walk that covers no reference, is that soft-clip alone. */
  lemma ClipsOnlyPath(p: seq<PathSegment>, q: nat, r: nat, querySize: nat, q0: nat, ops: seq<SegType>)
    requires Recorded(p, q, r, querySize, q0, 0, ops)
    requires q0 <= querySize && ops == Repeat(SegType.SOFT_CLIP, querySize - q0)
    ensures q == q0 && r == 0
    ensures p == if q0 < querySize then [PathSegment(SegType.SOFT_CLIP, querySize - q0)] else []
  {
    if p != [] {
      var last := p[|p| - 1];
      var e := Expand(p[..|p| - 1]);
      assert Expand(p) == e + Repeat(last.segType, last.length);
      assert Expand(p)[|e|] == last.segType;
      assert |p| == 1;
      assert p == [last];
      Single(last);
    }
  }

  /** With no walk, the forward path is the two soft-clips in order. */
  lemma ClipsOnly(querySize: nat, q0: nat)
    requires q0 <= querySize
    ensures Reverse(WithLead(if q0 < querySize then [PathSegment(SegType.SOFT_CLIP, querySize - q0)] else [], q0))
            == EdgeClips(querySize, q0)
  {
    if q0 < querySize && q0 > 0 {
      var trail := PathSegment(SegType.SOFT_CLIP, querySize - q0);
      var lead := PathSegment(SegType.SOFT_CLIP, q0);
      ReverseAt([trail, lead], 0);
      ReverseAt([trail, lead], 1);
    }
  }

  /** The forward path: push the leading soft-clip of length lead onto the
      closed backward path p, which stands for the trailing soft-clip trail
      followed by the walk, and reverse it. */
  lemma ForwardPath(p: seq<PathSegment>, lead: nat, trail: seq<SegType>, walk: seq<SegType>)
    requires trail == Repeat(SegType.SOFT_CLIP, |trail|)
    requires Expand(p) == trail + walk
    requires Positive(p) && Coalesced(p)
    requires forall k :: 0 < k < |p| ==> p[k].segType != SegType.SOFT_CLIP
    ensures var fwd := Reverse(WithLead(p, lead));
            Expand(fwd) == Repeat(SegType.SOFT_CLIP, lead) + Reverse(walk) + trail &&
            QueryLength(fwd) == QueryLength(p) + lead && RefLength(fwd) == RefLength(p) &&
            (forall k :: 0 <= k < |fwd| ==> fwd[k].length > 0 && fwd[k].segType != NONE) &&
            (forall k :: 0 < k < |fwd| - 1 ==> fwd[k].segType != SegType.SOFT_CLIP) &&
            (lead == 0 || p == [] || p[|p| - 1].segType != SegType.SOFT_CLIP ==> Coalesced(fwd))
  {
    LeadFacts(p, lead, trail, walk);
    var a := WithLead(p, lead);
    ExpandReverse(a);
    LengthsReverse(a);
    ReverseShape(a);
    ReverseOps(trail, walk, Repeat(SegType.SOFT_CLIP, lead));
  }

  /** Pushing the leading soft-clip onto the closed backward path keeps its
      meaning, coverage and shape; soft-clips then sit at both of its ends. */
  lemma LeadFacts(p: seq<PathSegment>, lead: nat, trail: seq<SegType>, walk: seq<SegType>)
    requires Expand(p) == trail + walk
    requires Positive(p) && Coalesced(p)
    requires forall k :: 0 < k < |p| ==> p[k].segType != SegType.SOFT_CLIP
    ensures var a := WithLead(p, lead);
            Expand(a) == trail + walk + Repeat(SegType.SOFT_CLIP, lead) &&
            QueryLength(a) == QueryLength(p) + lead && RefLength(a) == RefLength(p) &&
            (forall k :: 0 <= k < |a| ==> a[k].length > 0 && a[k].segType != NONE) &&
            (forall k :: 0 < k < |a| - 1 ==> a[k].segType != SegType.SOFT_CLIP) &&
            (lead == 0 || p == [] || p[|p| - 1].segType != SegType.SOFT_CLIP ==> Coalesced(a))
  {
    if lead != 0 {
      var leadSeg := PathSegment(SegType.SOFT_CLIP, lead);
      var a := p + [leadSeg];
      assert a[..|a| - 1] == p;
      QueryLengthAppend(p, [leadSeg]);
      assert [leadSeg][..0] == [];
    } else {
      assert Repeat(SegType.SOFT_CLIP, 0) == [];
    }
  }

  /** Reversing the backward operations: trail, walk, lead become lead,
      reversed walk, trail. */
  lemma ReverseOps(trail: seq<SegType>, walk: seq<SegType>, leads: seq<SegType>)
    requires trail == Repeat(SegType.SOFT_CLIP, |trail|)
    requires leads == Repeat(SegType.SOFT_CLIP, |leads|)
    ensures Reverse(trail + walk + leads) == leads + Reverse(walk) + trail
  {
    ReverseAppend(trail + walk, leads);
    ReverseAppend(trail, walk);
    RepeatReverse(SegType.SOFT_CLIP, |leads|);
    RepeatReverse(SegType.SOFT_CLIP, |trail|);
  }
}
