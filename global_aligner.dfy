/**
 * GlobalAligner::align: fill two rolling score rows and the pointer matrix
 * reference symbol by reference symbol, keep the best terminal cell, then
 * hand the matrix and that cell to the shared backtrace. Every array the
 * method writes is proved to hold what the recurrence of GlobalAlignerSpec
 * prescribes, and the result is stated in terms of that recurrence alone.
 */
module GlobalAlignment {
  import opened AlignerBase
  import opened AlignPath
  import opened GlobalAlignerSpec
  import SingleRefAlignerShared

  /** The pointer matrix has a cell for every query and reference position
      and a plane for each state the recurrence records. */
  ghost predicate PtrShape<T>(query: seq<T>, ref: seq<T>, ptr: array3<AlignState>) {
    ptr.Length0 == |query| + 1 && ptr.Length1 == |ref| + 1 && ptr.Length2 == 3
  }

  /** Rows 1 .. |col| of column c of the pointer matrix hold the pointer
      triples col, in order. */
  ghost predicate ColumnHolds(ptr: array3<AlignState>, c: nat, col: seq<PtrVal>)
    reads ptr
  {
    forall i, k :: 1 <= i <= |col| && 0 <= k < 3 && i < ptr.Length0 && c < ptr.Length1 && k < ptr.Length2 ==>
      ptr[i, c, k] == col[i - 1].Get(k)
  }

  /** Between the two states, no pointer cell changes outside rows 1 .. of
      column c. */
  twostate predicate OnlyColumnWritten(ptr: array3<AlignState>, c: nat)
    reads ptr
  {
    forall i, j, k :: 0 <= i < ptr.Length0 && 0 <= j < ptr.Length1 && 0 <= k < ptr.Length2 && (i == 0 || j != c) ==>
      ptr[i, j, k] == old(ptr[i, j, k])
  }

  /** Between the two states, no pointer cell other than (q, c, _) changes. */
  twostate predicate OnlyCellWritten(ptr: array3<AlignState>, q: nat, c: nat)
    reads ptr
  {
    forall i, j, k :: 0 <= i < ptr.Length0 && 0 <= j < ptr.Length1 && 0 <= k < ptr.Length2 && !(i == q && j == c) ==>
      ptr[i, j, k] == old(ptr[i, j, k])
  }

  /** Between the two states, no pointer cell in row 0 or column 0 changes. */
  twostate predicate EdgesKept(ptr: array3<AlignState>)
    reads ptr
  {
    forall i, j, k :: 0 <= i < ptr.Length0 && 0 <= j < ptr.Length1 && 0 <= k < ptr.Length2 && (i == 0 || j == 0) ==>
      ptr[i, j, k] == old(ptr[i, j, k])
  }

  /** Columns 1 .. j of the pointer matrix, rows 1 .. |query|, hold the
      pointers of the recurrence. */
  ghost predicate PtrMatches<T>(sc: AlignmentScores, query: seq<T>, ref: seq<T>, ptr: array3<AlignState>, j: nat)
    reads ptr
  {
    forall c :: 1 <= c <= j && c <= |ref| ==> ColumnHolds(ptr, c, PtrColumn(sc, query, ref, c, |query|))
  }

  /** One cell of a filled pointer matrix. */
  lemma PtrAt<T>(sc: AlignmentScores, query: seq<T>, ref: seq<T>, ptr: array3<AlignState>, i: nat, c: nat, k: nat)
    requires PtrShape(query, ref, ptr) && PtrMatches(sc, query, ref, ptr, |ref|)
    requires 1 <= i <= |query| && 1 <= c <= |ref| && k < 3
    ensures ptr[i, c, k] == PtrSpec(sc, query, ref, i, c).Get(k)
  {
    assert ColumnHolds(ptr, c, PtrColumn(sc, query, ref, c, |query|));
    PtrColumnAt(sc, query, ref, c, |query|, i);
  }

  /** A matrix filled by the recurrence only points at the three states it
      stores. */
  lemma PtrClosed<T>(sc: AlignmentScores, query: seq<T>, ref: seq<T>, ptr: array3<AlignState>)
    requires PtrShape(query, ref, ptr) && PtrMatches(sc, query, ref, ptr, |ref|)
    ensures SingleRefAlignerShared.ClosedPointers(ptr, |query|, |ref|)
  {
    forall q, r, k | 1 <= q <= |query| && 1 <= r <= |ref| && 0 <= k < ptr.Length2
      ensures ptr[q, r, k].Index() < ptr.Length2
    {
      PtrAt(sc, query, ref, ptr, q, r, k);
    }
  }

  /** Over a matrix filled by the recurrence, the backward walk is the walk
      over the recurrence's pointers. */
  lemma {:induction false} WalkAgrees<T>(sc: AlignmentScores, query: seq<T>, ref: seq<T>, ptr: array3<AlignState>,
                                         q: nat, r: nat, s: AlignState)
    requires PtrShape(query, ref, ptr) && PtrMatches(sc, query, ref, ptr, |ref|)
    requires SingleRefAlignerShared.ClosedPointers(ptr, |query|, |ref|)
    requires q <= |query| && r <= |ref| && s.Index() < 3
    ensures SingleRefAlignerShared.Walk(ptr, |query|, |ref|, q, r, s) == SpecWalk(sc, query, ref, q, r, s)
    ensures SingleRefAlignerShared.WalkEnd(ptr, |query|, |ref|, q, r, s) == SpecWalkEnd(sc, query, ref, q, r, s)
    decreases q + r
  {
    if q > 0 && r > 0 {
      var n := SingleRefAlignerShared.Next(q, r, s);
      PtrAt(sc, query, ref, ptr, q, r, s.Index());
      WalkAgrees(sc, query, ref, ptr, n.0, n.1, ptr[q, r, s.Index()]);
    }
  }

  /** The path the backtrace builds over a matrix filled by the recurrence,
      from the recurrence's terminal, is the recurrence's path. */
  lemma PathMeaning<T>(sc: AlignmentScores, query: seq<T>, ref: seq<T>, ptr: array3<AlignState>,
                       btrace: BackTrace, result: AlignmentResult)
    requires |ref| > 0
    requires PtrShape(query, ref, ptr) && PtrMatches(sc, query, ref, ptr, |ref|)
    requires btrace == Terminal(sc, query, ref)
    requires SingleRefAlignerShared.Backtraced(ptr, |query|, |ref|, btrace, result)
    ensures RecurrencePath(sc, query, ref, result)
  {
    assert 1 <= btrace.refBegin && btrace.state == AlignState.MATCH by {
      TerminalIsBest(sc, query, ref);
    }
    WalkAgrees(sc, query, ref, ptr, btrace.queryBegin, btrace.refBegin, AlignState.MATCH);
  }

  class GlobalAligner {
    const scores: AlignmentScores

    constructor(scores: AlignmentScores)
      ensures this.scores == scores
    {
      this.scores := scores;
    }

    /** align(query, ref): the best global alignment of the query against the
        reference, where the query may hang off either end of the reference. */
    method Align<T(==)>(query: seq<T>, ref: seq<T>) returns (result: AlignmentResult)
      requires |query| > 0 && |ref| > 0
      ensures RecurrenceAlignment(scores, query, ref, result)
    {
      var querySize, refSize := |query|, |ref|;
      var score1 := new ScoreVal[querySize + 1](_ => ColumnZero);
      var score2 := new ScoreVal[querySize + 1](_ => ColumnZero);
      var ptr := new AlignState[querySize + 1, refSize + 1, 3]((_, _, _) => AlignState.MATCH);

      var thisSV, btrace := FillMatrix(query, ref, score1, score2, ptr);

      // also allow for the query to fall off the end of the reference
      btrace := ScanEdge(query, ref, thisSV, btrace);
      TerminalIsBest(scores, query, ref);
      PtrClosed(scores, query, ref, ptr);
      result := SingleRefAlignerShared.BackTraceAlignment(querySize, refSize, ptr, btrace);
      TraceMeaning(query, ref, ptr, btrace, result);
    }

    /** What the backtrace promises about a matrix filled by the recurrence
        and the terminal of the recurrence: the alignment the recurrence
        defines. */
    lemma TraceMeaning<T>(query: seq<T>, ref: seq<T>, ptr: array3<AlignState>, btrace: BackTrace, result: AlignmentResult)
      requires |ref| > 0
      requires PtrShape(query, ref, ptr) && PtrMatches(scores, query, ref, ptr, |ref|)
      requires btrace == Terminal(scores, query, ref)
      requires SingleRefAlignerShared.Backtraced(ptr, |query|, |ref|, btrace, result)
      ensures RecurrenceAlignment(scores, query, ref, result)
    {
      ScoreMeaning(scores, query, ref, result);
      PathMeaning(scores, query, ref, ptr, btrace, result);
    }

    /** The final scan: every query position against the end of the
        reference, the rest of the query hanging off at offEdge per symbol. */
    method ScanEdge<T(==)>(query: seq<T>, ref: seq<T>, thisSV: array<ScoreVal>, rowBest: BackTrace)
      returns (btrace: BackTrace)
      requires thisSV[..] == Row(scores, query, ref, |ref|)
      requires rowBest == Scan(RowCandidates(scores, query, ref, |ref|))
      ensures btrace == Terminal(scores, query, ref)
    {
      var querySize, refSize := |query|, |ref|;
      btrace := rowBest;
      var queryIndex := 0;
      assert RowCandidates(scores, query, ref, refSize) + EdgeCandidates(scores, query, ref, 0)
          == RowCandidates(scores, query, ref, refSize);
      while queryIndex <= querySize
        invariant queryIndex <= querySize + 1
        invariant btrace == Scan(RowCandidates(scores, query, ref, refSize) + EdgeCandidates(scores, query, ref, queryIndex))
      {
        var thisMax := thisSV[queryIndex].matchScore + (querySize - queryIndex) * scores.offEdge;
        EdgeStep(query, ref, queryIndex, thisSV[..], btrace);
        btrace := UpdateBacktrace(thisMax, refSize, queryIndex, btrace);
        queryIndex := queryIndex + 1;
      }
    }

    /** One candidate of the final scan: query position queryIndex against
        the end of the reference. */
    lemma EdgeStep<T>(query: seq<T>, ref: seq<T>, queryIndex: nat, lastRow: seq<ScoreVal>, btrace: BackTrace)
      requires queryIndex <= |query| && lastRow == Row(scores, query, ref, |ref|)
      requires btrace == Scan(RowCandidates(scores, query, ref, |ref|) + EdgeCandidates(scores, query, ref, queryIndex))
      ensures UpdateBacktrace(lastRow[queryIndex].matchScore + (|query| - queryIndex) * scores.offEdge, |ref|, queryIndex, btrace)
              == Scan(RowCandidates(scores, query, ref, |ref|) + EdgeCandidates(scores, query, ref, queryIndex + 1))
    {
      var rows := RowCandidates(scores, query, ref, |ref|);
      var c := Candidate(lastRow[queryIndex].matchScore + (|query| - queryIndex) * scores.offEdge, queryIndex, |ref|);
      assert rows + EdgeCandidates(scores, query, ref, queryIndex + 1)
          == (rows + EdgeCandidates(scores, query, ref, queryIndex)) + [c];
      ScanSnoc(rows + EdgeCandidates(scores, query, ref, queryIndex), c);
    }

    /** The initial row and every reference row in turn, with the terminal
        candidates of the rows; thisSV is the last row filled. */
    method FillMatrix<T(==)>(query: seq<T>, ref: seq<T>, score1: array<ScoreVal>, score2: array<ScoreVal>,
                             ptr: array3<AlignState>)
      returns (thisSV: array<ScoreVal>, btrace: BackTrace)
      modifies score1, score2, ptr
      requires score1 != score2 && score1.Length == |query| + 1 && score2.Length == |query| + 1
      requires PtrShape(query, ref, ptr)
      ensures thisSV == score1 || thisSV == score2
      ensures thisSV[..] == Row(scores, query, ref, |ref|)
      ensures PtrMatches(scores, query, ref, ptr, |ref|)
      ensures btrace == Scan(RowCandidates(scores, query, ref, |ref|))
      ensures EdgesKept(ptr)
    {
      thisSV := score1;
      var prevSV := score2;
      InitScores(thisSV);
      btrace := EmptyBackTrace;

      var refIndex := 0;
      while refIndex < |ref|
        invariant refIndex <= |ref|
        invariant (thisSV == score1 && prevSV == score2) || (thisSV == score2 && prevSV == score1)
        invariant thisSV[..] == Row(scores, query, ref, refIndex)
        invariant PtrMatches(scores, query, ref, ptr, refIndex)
        invariant btrace == Scan(RowCandidates(scores, query, ref, refIndex))
        invariant EdgesKept(ptr)
      {
        thisSV, prevSV := prevSV, thisSV;
        btrace := ReferenceRow(query, ref, refIndex, prevSV, thisSV, ptr, btrace);
        refIndex := refIndex + 1;
      }
    }

    /** One pass of the outer loop after the swap of the two rows: fill the
        row for ref[refIndex] and offer the end of the query to the backtrace
        record. */
    method ReferenceRow<T(==)>(query: seq<T>, ref: seq<T>, refIndex: nat, prevSV: array<ScoreVal>, thisSV: array<ScoreVal>,
                               ptr: array3<AlignState>, btrace: BackTrace)
      returns (btrace': BackTrace)
      modifies thisSV, ptr
      requires refIndex < |ref| && prevSV != thisSV
      requires prevSV.Length == |query| + 1 && thisSV.Length == |query| + 1
      requires PtrShape(query, ref, ptr)
      requires prevSV[..] == Row(scores, query, ref, refIndex)
      requires PtrMatches(scores, query, ref, ptr, refIndex)
      requires btrace == Scan(RowCandidates(scores, query, ref, refIndex))
      ensures thisSV[..] == Row(scores, query, ref, refIndex + 1)
      ensures PtrMatches(scores, query, ref, ptr, refIndex + 1)
      ensures btrace' == Scan(RowCandidates(scores, query, ref, refIndex + 1))
      ensures OnlyColumnWritten(ptr, refIndex + 1)
    {
      FillRow(query, ref, refIndex, prevSV, thisSV, ptr);
      assert PtrMatches(scores, query, ref, ptr, refIndex + 1) by {
        forall c | 1 <= c <= refIndex && c <= |ref|
          ensures ColumnHolds(ptr, c, PtrColumn(scores, query, ref, c, |query|))
        {
          assert old(ColumnHolds(ptr, c, PtrColumn(scores, query, ref, c, |query|)));
        }
      }
      // get the backtrace information for the end of the query
      RowStep(query, ref, refIndex, thisSV[..], btrace);
      btrace' := UpdateBacktrace(thisSV[|query|].matchScore, refIndex + 1, |query|, btrace);
    }

    /** The candidate of one reference row: the end of the query. */
    lemma RowStep<T>(query: seq<T>, ref: seq<T>, refIndex: nat, row: seq<ScoreVal>, btrace: BackTrace)
      requires refIndex < |ref| && row == Row(scores, query, ref, refIndex + 1)
      requires btrace == Scan(RowCandidates(scores, query, ref, refIndex))
      ensures UpdateBacktrace(row[|query|].matchScore, refIndex + 1, |query|, btrace)
              == Scan(RowCandidates(scores, query, ref, refIndex + 1))
    {
      ScanSnoc(RowCandidates(scores, query, ref, refIndex), Candidate(row[|query|].matchScore, |query|, refIndex + 1));
    }

    /** The row before any reference symbol. */
    method InitScores(row: array<ScoreVal>)
      modifies row
      requires row.Length > 0
      ensures row[..] == InitRow(scores, row.Length - 1)
    {
      var queryIndex := 0;
      while queryIndex < row.Length
        invariant queryIndex <= row.Length
        invariant forall i :: 0 <= i < queryIndex ==> row[i] == ScoreVal(i * scores.offEdge, BadVal, BadVal)
      {
        row[queryIndex] := ScoreVal(queryIndex * scores.offEdge, BadVal, BadVal);
        queryIndex := queryIndex + 1;
      }
    }

    /** The row for reference symbol ref[refIndex] from the previous row: the
        cells go into thisSV and the pointers into rows 1 .. |query| of column
        refIndex + 1 of ptr; no other column of ptr changes. */
    method FillRow<T(==)>(query: seq<T>, ref: seq<T>, refIndex: nat, prevSV: array<ScoreVal>, thisSV: array<ScoreVal>,
                          ptr: array3<AlignState>)
      modifies thisSV, ptr
      requires refIndex < |ref| && prevSV != thisSV
      requires prevSV.Length == |query| + 1 && thisSV.Length == |query| + 1
      requires PtrShape(query, ref, ptr)
      ensures thisSV[..] == RowPrefix(scores, prevSV[..], query, ref[refIndex], |query|)
      ensures ColumnHolds(ptr, refIndex + 1, PtrRow(scores, prevSV[..], query, ref[refIndex], |query|))
      ensures OnlyColumnWritten(ptr, refIndex + 1)
    {
      // an alignment may not start in the insert or delete state
      thisSV[0] := ColumnZero;

      var queryIndex := 0;
      while queryIndex < |query|
        invariant queryIndex <= |query|
        invariant thisSV[..queryIndex + 1] == RowPrefix(scores, prevSV[..], query, ref[refIndex], queryIndex)
        invariant ColumnHolds(ptr, refIndex + 1, PtrRow(scores, prevSV[..], query, ref[refIndex], queryIndex))
        invariant OnlyColumnWritten(ptr, refIndex + 1)
      {
        FillCell(query, ref, refIndex, queryIndex, prevSV, thisSV, ptr);
        queryIndex := queryIndex + 1;
      }
      assert thisSV[..] == thisSV[..|query| + 1];
    }

    /** One pass of the inner loop: cell queryIndex + 1 extends the row prefix
        and the pointer column of the recurrence by one. */
    method FillCell<T(==)>(query: seq<T>, ref: seq<T>, refIndex: nat, queryIndex: nat,
                           prevSV: array<ScoreVal>, thisSV: array<ScoreVal>, ptr: array3<AlignState>)
      modifies thisSV, ptr
      requires refIndex < |ref| && queryIndex < |query| && prevSV != thisSV
      requires prevSV.Length == |query| + 1 && thisSV.Length == |query| + 1
      requires PtrShape(query, ref, ptr)
      requires thisSV[..queryIndex + 1] == RowPrefix(scores, prevSV[..], query, ref[refIndex], queryIndex)
      requires ColumnHolds(ptr, refIndex + 1, PtrRow(scores, prevSV[..], query, ref[refIndex], queryIndex))
      ensures thisSV[..queryIndex + 2] == RowPrefix(scores, prevSV[..], query, ref[refIndex], queryIndex + 1)
      ensures ColumnHolds(ptr, refIndex + 1, PtrRow(scores, prevSV[..], query, ref[refIndex], queryIndex + 1))
      ensures thisSV[queryIndex + 2..] == old(thisSV[queryIndex + 2..])
      ensures OnlyCellWritten(ptr, queryIndex + 1, refIndex + 1)
    {
      ghost var before := thisSV[..queryIndex + 1];
      ghost var col := PtrRow(scores, prevSV[..], query, ref[refIndex], queryIndex);
      ghost var p := UpdateCell(query, ref, refIndex, queryIndex, prevSV, thisSV, ptr, col);
      assert thisSV[..queryIndex + 2] == before + [thisSV[queryIndex + 1]];
    }

    /** Cell queryIndex + 1 of the row for ref[refIndex]: the three maxima
        over the diagonal, upper and left cells, the pointers that record
        their winners, and the match, gap and first-position penalties. The
        cell is the recurrence applied to the cells it is computed from;
        nothing else changes. */
    method UpdateCell<T(==)>(query: seq<T>, ref: seq<T>, refIndex: nat, queryIndex: nat,
                             prevSV: array<ScoreVal>, thisSV: array<ScoreVal>, ptr: array3<AlignState>,
                             ghost col: seq<PtrVal>)
      returns (ghost p: PtrVal)
      modifies thisSV, ptr
      requires refIndex < |ref| && queryIndex < |query| && prevSV != thisSV
      requires prevSV.Length == |query| + 1 && thisSV.Length == |query| + 1
      requires PtrShape(query, ref, ptr)
      requires |col| == queryIndex && ColumnHolds(ptr, refIndex + 1, col)
      ensures var c := Recur(scores, prevSV[queryIndex], prevSV[queryIndex + 1], old(thisSV[queryIndex]), queryIndex,
                             query[queryIndex] == ref[refIndex]);
              thisSV[..] == old(thisSV[..])[queryIndex + 1 := c.0] && p == c.1
      ensures ColumnHolds(ptr, refIndex + 1, col + [p])
      ensures OnlyCellWritten(ptr, queryIndex + 1, refIndex + 1)
    {
      // update match
      var diag := prevSV[queryIndex];
      var m := Max3(diag.matchScore, diag.del, diag.ins);
      var headMatch := m.score + (if query[queryIndex] == ref[refIndex] then scores.matchScore else scores.mismatch);

      // update delete
      var up := prevSV[queryIndex + 1];
      var d := Max3(up.matchScore + scores.open, up.del, up.ins);
      var headDel := d.score + scores.extend;
      if queryIndex == 0 {
        headDel := headDel + BadVal;
      }

      // update insert
      var left := thisSV[queryIndex];
      var n := Max3(left.matchScore + scores.open, left.del, left.ins);
      var headIns := n.score + scores.extend;
      if queryIndex == 0 {
        headIns := headIns + BadVal;
      }

      thisSV[queryIndex + 1] := ScoreVal(headMatch, headDel, headIns);
      ptr[queryIndex + 1, refIndex + 1, 0] := m.from;
      ptr[queryIndex + 1, refIndex + 1, 1] := d.from;
      ptr[queryIndex + 1, refIndex + 1, 2] := n.from;
      p := PtrVal(m.from, d.from, n.from);
    }
  }
}
