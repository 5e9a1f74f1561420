/**
 * The affine-gap recurrence of the global aligner as functions: one cell,
 * one score row, every row of the matrix, the pointer matrix, the terminal
 * candidates in the order they are offered, and the terminal they select.
 * The imperative aligner (module GlobalAlignment) is proved to compute
 * exactly these.
 */
module GlobalAlignerSpec {
  import opened AlignerBase
  import opened AlignPath
  import SingleRefAlignerShared

  /** One cell of a score row: the best score of an alignment ending at this
      cell in each of the three states. */
  datatype ScoreVal = ScoreVal(matchScore: int, del: int, ins: int)

  /** One cell of the pointer matrix: for each state, the state at the
      predecessor cell from which its best score came. */
  datatype PtrVal = PtrVal(matchFrom: AlignState, delFrom: AlignState, insFrom: AlignState) {
    /** The entry for the state with code k. */
    function Get(k: nat): AlignState
      requires k < 3
    {
      if k == 0 then matchFrom else if k == 1 then delFrom else insFrom
    }
  }

  /** The penalty added to the gap states of the first query position. */
  function EdgeGap(queryIndex: nat): int {
    if queryIndex == 0 then BadVal else 0
  }

  /** The cell at query position queryIndex + 1, from the previous row's
      cells diag (at queryIndex) and up (at queryIndex + 1) and the current
      row's cell left (at queryIndex); isMatch says whether the query and
      reference symbols are equal. */
  function Recur(sc: AlignmentScores, diag: ScoreVal, up: ScoreVal, left: ScoreVal,
                 queryIndex: nat, isMatch: bool): (c: (ScoreVal, PtrVal))
    // match: the best of the diagonal triple, plus the match or mismatch score
    ensures FirstMax(diag.matchScore, diag.del, diag.ins, c.1.matchFrom)
    ensures c.0.matchScore == Choice(diag.matchScore, diag.del, diag.ins, c.1.matchFrom)
                              + (if isMatch then sc.matchScore else sc.mismatch)
    // delete: open a gap from the match state of the cell above, or extend one
    ensures FirstMax(up.matchScore + sc.open, up.del, up.ins, c.1.delFrom)
    ensures c.0.del == Choice(up.matchScore + sc.open, up.del, up.ins, c.1.delFrom)
                       + sc.extend + EdgeGap(queryIndex)
    // insert: the same from the cell to the left in the current row
    ensures FirstMax(left.matchScore + sc.open, left.del, left.ins, c.1.insFrom)
    ensures c.0.ins == Choice(left.matchScore + sc.open, left.del, left.ins, c.1.insFrom)
                       + sc.extend + EdgeGap(queryIndex)
  {
    var m := Max3(diag.matchScore, diag.del, diag.ins);
    var d := Max3(up.matchScore + sc.open, up.del, up.ins);
    var i := Max3(left.matchScore + sc.open, left.del, left.ins);
    (ScoreVal(m.score + (if isMatch then sc.matchScore else sc.mismatch),
              d.score + sc.extend + EdgeGap(queryIndex),
              i.score + sc.extend + EdgeGap(queryIndex)),
     PtrVal(m.from, d.from, i.from))
  }


  /** The row before any reference symbol: the query hangs off the start of
      the reference, at offEdge per symbol; the gap states are forbidden. */
  function InitRow(sc: AlignmentScores, querySize: nat): (row: seq<ScoreVal>)
    ensures |row| == querySize + 1
    ensures forall i :: 0 <= i <= querySize ==> row[i] == ScoreVal(i * sc.offEdge, BadVal, BadVal)
  {
    seq(querySize + 1, i => ScoreVal(i * sc.offEdge, BadVal, BadVal))
  }

  /** The cell every row after the first starts with: an alignment may not
      start in a gap state. */
  const ColumnZero: ScoreVal := ScoreVal(0, BadVal, BadVal)

  /** The first n + 1 cells of the row for reference symbol rsym, given the
      previous row prev. */
  function RowPrefix<T(==)>(sc: AlignmentScores, prev: seq<ScoreVal>, query: seq<T>, rsym: T, n: nat): (row: seq<ScoreVal>)
    requires |prev| == |query| + 1 && n <= |query|
    ensures |row| == n + 1 && row[0] == ColumnZero
    decreases n
  {
    if n == 0 then [ColumnZero]
    else
      var r := RowPrefix(sc, prev, query, rsym, n - 1);
      r + [Recur(sc, prev[n - 1], prev[n], r[n - 1], n - 1, query[n - 1] == rsym).0]
  }

  /** Cell i of a row prefix does not depend on how far the prefix reaches. */
  lemma {:induction false} RowPrefixAt<T>(sc: AlignmentScores, prev: seq<ScoreVal>, query: seq<T>, rsym: T, n: nat, i: nat)
    requires |prev| == |query| + 1 && i <= n <= |query|
    ensures RowPrefix(sc, prev, query, rsym, n)[i] == RowPrefix(sc, prev, query, rsym, i)[i]
    decreases n
  {
    if i < n {
      RowPrefixAt(sc, prev, query, rsym, n - 1, i);
    }
  }

  /** Score row j of the matrix: row 0 before any reference symbol, row j
      after reference symbol j - 1. */
  function Row<T(==)>(sc: AlignmentScores, query: seq<T>, ref: seq<T>, j: nat): (row: seq<ScoreVal>)
    requires j <= |ref|
    ensures |row| == |query| + 1
  {
    if j == 0 then InitRow(sc, |query|)
    else RowPrefix(sc, Row(sc, query, ref, j - 1), query, ref[j - 1], |query|)
  }

  /** The pointers the recurrence records at cell i of row j (both at least 1). */
  function PtrSpec<T(==)>(sc: AlignmentScores, query: seq<T>, ref: seq<T>, i: nat, j: nat): (p: PtrVal)
    requires 1 <= i <= |query| && 1 <= j <= |ref|
    ensures forall k :: 0 <= k < 3 ==> p.Get(k).Index() < 3
  {
    var prev := Row(sc, query, ref, j - 1);
    Recur(sc, prev[i - 1], prev[i], RowPrefix(sc, prev, query, ref[j - 1], i - 1)[i - 1],
          i - 1, query[i - 1] == ref[j - 1]).1
  }

  /** The pointers of cells 1 .. n of the row for reference symbol rsym,
      computed from the previous row prev. */
  function PtrRow<T(==)>(sc: AlignmentScores, prev: seq<ScoreVal>, query: seq<T>, rsym: T, n: nat): (col: seq<PtrVal>)
    requires |prev| == |query| + 1 && n <= |query|
    ensures |col| == n
    decreases n
  {
    if n == 0 then []
    else
      var r := RowPrefix(sc, prev, query, rsym, n - 1);
      PtrRow(sc, prev, query, rsym, n - 1) + [Recur(sc, prev[n - 1], prev[n], r[n - 1], n - 1, query[n - 1] == rsym).1]
  }

  /** The pointers of rows 1 .. n of column j of the matrix. */
  function PtrColumn<T(==)>(sc: AlignmentScores, query: seq<T>, ref: seq<T>, j: nat, n: nat): (col: seq<PtrVal>)
    requires 1 <= j <= |ref| && n <= |query|
    ensures |col| == n
  {
    PtrRow(sc, Row(sc, query, ref, j - 1), query, ref[j - 1], n)
  }

  /** Entry i - 1 of the pointers of a row is the recurrence at cell i. */
  lemma {:induction false} PtrRowAt<T>(sc: AlignmentScores, prev: seq<ScoreVal>, query: seq<T>, rsym: T, n: nat, i: nat)
    requires |prev| == |query| + 1 && 1 <= i <= n <= |query|
    ensures PtrRow(sc, prev, query, rsym, n)[i - 1]
            == Recur(sc, prev[i - 1], prev[i], RowPrefix(sc, prev, query, rsym, i - 1)[i - 1], i - 1, query[i - 1] == rsym).1
  {
    if i < n {
      PtrRowAt(sc, prev, query, rsym, n - 1, i);
    }
  }

  /** Entry i of a pointer column is the pointer of cell (i, j). */
  lemma PtrColumnAt<T>(sc: AlignmentScores, query: seq<T>, ref: seq<T>, j: nat, n: nat, i: nat)
    requires 1 <= j <= |ref| && 1 <= i <= n <= |query|
    ensures PtrColumn(sc, query, ref, j, n)[i - 1] == PtrSpec(sc, query, ref, i, j)
  {
    PtrRowAt(sc, Row(sc, query, ref, j - 1), query, ref[j - 1], n, i);
  }

  lemma RowColumnZero<T>(sc: AlignmentScores, query: seq<T>, ref: seq<T>, j: nat)
    requires 1 <= j <= |ref|
    ensures Row(sc, query, ref, j)[0] == ScoreVal(0, BadVal, BadVal)
  {
  }

  /** The recurrence at cell (i, j): the cell is computed from the cells to
      its upper left, above and left, and its pointers are those of PtrSpec. */
  lemma CellRecurrence<T>(sc: AlignmentScores, query: seq<T>, ref: seq<T>, i: nat, j: nat)
    requires 1 <= i <= |query| && 1 <= j <= |ref|
    ensures var prev := Row(sc, query, ref, j - 1);
            var cur := Row(sc, query, ref, j);
            var c := Recur(sc, prev[i - 1], prev[i], cur[i - 1], i - 1, query[i - 1] == ref[j - 1]);
            cur[i] == c.0 && PtrSpec(sc, query, ref, i, j) == c.1
  {
    var prev := Row(sc, query, ref, j - 1);
    RowPrefixAt(sc, prev, query, ref[j - 1], |query|, i);
    RowPrefixAt(sc, prev, query, ref[j - 1], |query|, i - 1);
  }

  /** A terminal cell offered to updateBacktrace, with its score. */
  datatype Candidate = Candidate(score: int, queryIndex: nat, refIndex: nat)

  /** The end of the query against each of the first j reference positions. */
  function RowCandidates<T(==)>(sc: AlignmentScores, query: seq<T>, ref: seq<T>, j: nat): (cs: seq<Candidate>)
    requires j <= |ref|
    ensures |cs| == j
  {
    if j == 0 then []
    else RowCandidates(sc, query, ref, j - 1) + [Candidate(Row(sc, query, ref, j)[|query|].matchScore, |query|, j)]
  }

  /** Query positions 0 .. n - 1 against the end of the reference, with the
      rest of the query hanging off at offEdge per symbol. */
  function EdgeCandidates<T(==)>(sc: AlignmentScores, query: seq<T>, ref: seq<T>, n: nat): (cs: seq<Candidate>)
    requires n <= |query| + 1
    ensures |cs| == n
  {
    if n == 0 then []
    else
      EdgeCandidates(sc, query, ref, n - 1)
      + [Candidate(Row(sc, query, ref, |ref|)[n - 1].matchScore + (|query| - (n - 1)) * sc.offEdge, n - 1, |ref|)]
  }

  /** Every terminal candidate, in the order the aligner offers them. */
  function Candidates<T(==)>(sc: AlignmentScores, query: seq<T>, ref: seq<T>): seq<Candidate> {
    RowCandidates(sc, query, ref, |ref|) + EdgeCandidates(sc, query, ref, |query| + 1)
  }

  /** The candidates all lie on the last query position or the last reference
      position, within the matrix. */
  lemma CandidatesInMatrix<T>(sc: AlignmentScores, query: seq<T>, ref: seq<T>)
    requires |ref| > 0
    ensures forall k :: 0 <= k < |Candidates(sc, query, ref)| ==>
              var c := Candidates(sc, query, ref)[k];
              c.queryIndex <= |query| && 1 <= c.refIndex <= |ref| &&
              (c.queryIndex == |query| || c.refIndex == |ref|) &&
              c.score == Row(sc, query, ref, c.refIndex)[c.queryIndex].matchScore + (|query| - c.queryIndex) * sc.offEdge
  {
    RowCandidatesInMatrix(sc, query, ref, |ref|);
    EdgeCandidatesInMatrix(sc, query, ref, |query| + 1);
  }

  lemma {:induction false} RowCandidatesInMatrix<T>(sc: AlignmentScores, query: seq<T>, ref: seq<T>, j: nat)
    requires j <= |ref|
    ensures forall k :: 0 <= k < j ==>
              RowCandidates(sc, query, ref, j)[k] == Candidate(Row(sc, query, ref, k + 1)[|query|].matchScore, |query|, k + 1)
  {
    if j > 0 {
      RowCandidatesInMatrix(sc, query, ref, j - 1);
    }
  }

  lemma {:induction false} EdgeCandidatesInMatrix<T>(sc: AlignmentScores, query: seq<T>, ref: seq<T>, n: nat)
    requires n <= |query| + 1
    ensures forall k :: 0 <= k < n ==>
              EdgeCandidates(sc, query, ref, n)[k]
              == Candidate(Row(sc, query, ref, |ref|)[k].matchScore + (|query| - k) * sc.offEdge, k, |ref|)
  {
    if n > 0 {
      EdgeCandidatesInMatrix(sc, query, ref, n - 1);
    }
  }

  /** The record after offering the candidates cs, in order, to
      updateBacktrace. */
  function Scan(cs: seq<Candidate>): BackTrace {
    if cs == [] then EmptyBackTrace
    else
      var c := cs[|cs| - 1];
      UpdateBacktrace(c.score, c.refIndex, c.queryIndex, Scan(cs[..|cs| - 1]))
  }

  /** Offering one more candidate. */
  lemma ScanSnoc(cs: seq<Candidate>, c: Candidate)
    ensures Scan(cs + [c]) == UpdateBacktrace(c.score, c.refIndex, c.queryIndex, Scan(cs))
  {
    assert (cs + [c])[..|cs|] == cs;
  }

  /** The record holds the first maximum of the candidates: its score is the
      largest, every earlier candidate scores strictly less, and its cell is
      that candidate's, in the MATCH state. */
  lemma {:induction false} ScanFirstMax(cs: seq<Candidate>) returns (k: nat)
    requires cs != []
    ensures k < |cs|
    ensures Scan(cs) == BackTrace(cs[k].score, AlignState.MATCH, cs[k].queryIndex, cs[k].refIndex, true)
    ensures forall i :: 0 <= i < |cs| ==> cs[i].score <= cs[k].score
    ensures forall i :: 0 <= i < k ==> cs[i].score < cs[k].score
  {
    var init := cs[..|cs| - 1];
    var c := cs[|cs| - 1];
    if init == [] {
      k := 0;
    } else {
      var k0 := ScanFirstMax(init);
      if c.score > cs[k0].score {
        k := |cs| - 1;
      } else {
        k := k0;
      }
    }
  }

  /** The terminal cell the aligner hands to the backtrace. */
  function Terminal<T(==)>(sc: AlignmentScores, query: seq<T>, ref: seq<T>): BackTrace {
    Scan(Candidates(sc, query, ref))
  }

  /** The terminal is the first best candidate: it is initialised, in the
      MATCH state, on the last query or the last reference position, with a
      reference position of at least 1, and no candidate scores higher. */
  lemma TerminalIsBest<T>(sc: AlignmentScores, query: seq<T>, ref: seq<T>)
    requires |ref| > 0
    ensures var t := Terminal(sc, query, ref);
            t.isInit && t.state == AlignState.MATCH &&
            t.queryBegin <= |query| && 1 <= t.refBegin <= |ref| &&
            (t.queryBegin == |query| || t.refBegin == |ref|) &&
            t.max == Row(sc, query, ref, t.refBegin)[t.queryBegin].matchScore + (|query| - t.queryBegin) * sc.offEdge
    ensures var cs := Candidates(sc, query, ref);
            forall k :: 0 <= k < |cs| ==> cs[k].score <= Terminal(sc, query, ref).max
    ensures var cs := Candidates(sc, query, ref);
            exists k :: 0 <= k < |cs| && cs[k] == Candidate(Terminal(sc, query, ref).max,
                                                          Terminal(sc, query, ref).queryBegin,
                                                          Terminal(sc, query, ref).refBegin)
  {
    var cs := Candidates(sc, query, ref);
    var k := ScanFirstMax(cs);
    CandidatesInMatrix(sc, query, ref);
    assert cs[k] == Candidate(Terminal(sc, query, ref).max, Terminal(sc, query, ref).queryBegin,
                              Terminal(sc, query, ref).refBegin);
  }

  /** The score of state s in a cell. */
  function StateScore(v: ScoreVal, s: AlignState): int {
    Choice(v.matchScore, v.del, v.ins, s)
  }

  /** The score of state s at cell (q, r) on the edge of the matrix (q == 0
      or r == 0): the query hanging off the start of the reference in the
      first row, nothing in the first column, and the forbidden value for the
      gap states. */
  function EdgeScore(sc: AlignmentScores, q: nat, r: nat, s: AlignState): int {
    if !s.MATCH? then BadVal else if r == 0 then q * sc.offEdge else 0
  }

  /** What the step at cell (q, r) in state s adds to the score when the
      step before it ends in state p: the match or mismatch score for a
      match, and for a gap the extension, the opening when the gap follows a
      match, and the first-position penalty. */
  function StepScore<T(==)>(sc: AlignmentScores, query: seq<T>, ref: seq<T>, q: nat, r: nat, s: AlignState,
                            p: AlignState): int
    requires 1 <= q <= |query| && 1 <= r <= |ref|
  {
    if s.MATCH? then (if query[q - 1] == ref[r - 1] then sc.matchScore else sc.mismatch)
    else (if p.MATCH? then sc.open else 0) + sc.extend + EdgeGap(q - 1)
  }

  /** The score of the backward walk from (q, r) in state s over the
      pointers of the recurrence: its step scores and the edge score where it
      stops. */
  ghost function WalkScore<T>(sc: AlignmentScores, query: seq<T>, ref: seq<T>, q: nat, r: nat, s: AlignState): int
    requires q <= |query| && r <= |ref| && s.Index() < 3
    decreases q + r
  {
    if q == 0 || r == 0 then EdgeScore(sc, q, r, s)
    else
      var n := SingleRefAlignerShared.Next(q, r, s);
      var p := PtrSpec(sc, query, ref, q, r).Get(s.Index());
      StepScore(sc, query, ref, q, r, s, p) + WalkScore(sc, query, ref, n.0, n.1, p)
  }

  /** One step back: the value of state s at an inner cell is the step
      score plus the value of the recorded predecessor state at the
      predecessor cell. */
  lemma CellStepScore<T>(sc: AlignmentScores, query: seq<T>, ref: seq<T>, q: nat, r: nat, s: AlignState)
    requires 1 <= q <= |query| && 1 <= r <= |ref| && s.Index() < 3
    ensures var n := SingleRefAlignerShared.Next(q, r, s);
            var p := PtrSpec(sc, query, ref, q, r).Get(s.Index());
            StateScore(Row(sc, query, ref, r)[q], s)
            == StepScore(sc, query, ref, q, r, s, p) + StateScore(Row(sc, query, ref, n.1)[n.0], p)
  {
    CellRecurrence(sc, query, ref, q, r);
  }

  /** Every value of the matrix is the score of the path its pointers trace
      back from it. */
  lemma {:induction false} WalkScoreIsCell<T>(sc: AlignmentScores, query: seq<T>, ref: seq<T>, q: nat, r: nat, s: AlignState)
    requires q <= |query| && r <= |ref| && s.Index() < 3
    ensures WalkScore(sc, query, ref, q, r, s) == StateScore(Row(sc, query, ref, r)[q], s)
    decreases q + r
  {
    if q > 0 && r > 0 {
      var n := SingleRefAlignerShared.Next(q, r, s);
      CellStepScore(sc, query, ref, q, r, s);
      WalkScoreIsCell(sc, query, ref, n.0, n.1, PtrSpec(sc, query, ref, q, r).Get(s.Index()));
    } else if r > 0 {
      assert Row(sc, query, ref, r)[0] == ColumnZero;
    }
  }

  /** The terminal's score is the score of the path traced back from it
      with the query past the terminal hanging off the end of the reference. */
  lemma TerminalPathScore<T>(sc: AlignmentScores, query: seq<T>, ref: seq<T>)
    requires |ref| > 0
    ensures var t := Terminal(sc, query, ref);
            t.queryBegin <= |query| && t.refBegin <= |ref| &&
            t.max == WalkScore(sc, query, ref, t.queryBegin, t.refBegin, AlignState.MATCH) + (|query| - t.queryBegin) * sc.offEdge
  {
    var t := Terminal(sc, query, ref);
    TerminalIsBest(sc, query, ref);
    WalkScoreIsCell(sc, query, ref, t.queryBegin, t.refBegin, AlignState.MATCH);
  }

  /** result is the alignment the recurrence defines: its score is the
      recurrence's (RecurrenceScore) and its path is the one traced back from
      the recurrence's terminal (RecurrencePath). */
  ghost predicate RecurrenceAlignment<T>(sc: AlignmentScores, query: seq<T>, ref: seq<T>, result: AlignmentResult) {
    RecurrenceScore(sc, query, ref, result) && RecurrencePath(sc, query, ref, result)
  }

  /** The score of result is the best candidate score, reached by a
      candidate, and it is the score of the path traced back from the
      terminal plus the off-edge charge for the query past the terminal. */
  ghost predicate RecurrenceScore<T>(sc: AlignmentScores, query: seq<T>, ref: seq<T>, result: AlignmentResult) {
    var t := Terminal(sc, query, ref);
    var cs := Candidates(sc, query, ref);
    t.queryBegin <= |query| && 1 <= t.refBegin <= |ref| &&
    result.score == t.max &&
    result.score == WalkScore(sc, query, ref, t.queryBegin, t.refBegin, AlignState.MATCH) + (|query| - t.queryBegin) * sc.offEdge &&
    (forall k :: 0 <= k < |cs| ==> cs[k].score <= result.score) &&
    (exists k :: 0 <= k < |cs| && cs[k].score == result.score)
  }

  /** The path of result spells out the backward walk from the terminal in
      forward order, between a leading soft-clip for the query left over
      where the walk stops and a trailing one for the query past the
      terminal. It covers the whole query and, from beginPos, the reference
      up to the terminal. Its segments are non-empty and opened, neighbours
      have different kinds, and soft-clips occur only at its ends. */
  ghost predicate RecurrencePath<T>(sc: AlignmentScores, query: seq<T>, ref: seq<T>, result: AlignmentResult) {
    var t := Terminal(sc, query, ref);
    t.queryBegin <= |query| && 1 <= t.refBegin <= |ref| &&
    (var e := SpecWalkEnd(sc, query, ref, t.queryBegin, t.refBegin, AlignState.MATCH);
     result.beginPos == e.1 &&
     Expand(result.apath) ==
       Repeat(SegType.SOFT_CLIP, e.0)
       + Reverse(SpecWalk(sc, query, ref, t.queryBegin, t.refBegin, AlignState.MATCH))
       + Repeat(SegType.SOFT_CLIP, |query| - t.queryBegin)) &&
    QueryLength(result.apath) == |query| &&
    result.beginPos + RefLength(result.apath) == t.refBegin &&
    (forall k :: 0 <= k < |result.apath| ==> result.apath[k].length > 0 && result.apath[k].segType != NONE) &&
    (forall k :: 0 < k < |result.apath| - 1 ==> result.apath[k].segType != SegType.SOFT_CLIP) &&
    Coalesced(result.apath)
  }

  /** A result carrying the terminal's score has the recurrence's score. */
  lemma ScoreMeaning<T>(sc: AlignmentScores, query: seq<T>, ref: seq<T>, result: AlignmentResult)
    requires |ref| > 0 && result.score == Terminal(sc, query, ref).max
    ensures RecurrenceScore(sc, query, ref, result)
  {
    TerminalIsBest(sc, query, ref);
    TerminalPathScore(sc, query, ref);
  }

  /** The unit operations the backward walk from (q, r) in state s emits
      over the pointers of the recurrence. */
  ghost function SpecWalk<T>(sc: AlignmentScores, query: seq<T>, ref: seq<T>, q: nat, r: nat, s: AlignState): seq<SegType>
    requires q <= |query| && r <= |ref| && s.Index() < 3
    decreases q + r
  {
    if q == 0 || r == 0 then []
    else
      var n := SingleRefAlignerShared.Next(q, r, s);
      [SingleRefAlignerShared.StepOp(s)] + SpecWalk(sc, query, ref, n.0, n.1, PtrSpec(sc, query, ref, q, r).Get(s.Index()))
  }

  /** The cell at which that walk stops. */
  ghost function SpecWalkEnd<T>(sc: AlignmentScores, query: seq<T>, ref: seq<T>, q: nat, r: nat, s: AlignState): (nat, nat)
    requires q <= |query| && r <= |ref| && s.Index() < 3
    decreases q + r
  {
    if q == 0 || r == 0 then (q, r)
    else
      var n := SingleRefAlignerShared.Next(q, r, s);
      SpecWalkEnd(sc, query, ref, n.0, n.1, PtrSpec(sc, query, ref, q, r).Get(s.Index()))
  }
}
