/**
 * State machine and scoring types shared by the single-reference aligners,
 * together with the two helpers the aligners call but whose bodies are not
 * part of this model (max3, updateBacktrace). Their behaviour is stated here
 * as the definitions below.
 */
module AlignerBase {

  /** The closed set of alignment states. JUMP and JUMPINS are produced only by
      other aligner variants; the backtrace treats them as DELETE and INSERT. */
  datatype AlignState = MATCH | DELETE | INSERT | JUMP | JUMPINS {
    /** The state's integer code, as stored in a pointer matrix. */
    function Index(): (k: nat)
      ensures k < 5
      ensures k < 3 <==> (MATCH? || DELETE? || INSERT?)
    {
      match this
      case MATCH => 0
      case DELETE => 1
      case INSERT => 2
      case JUMP => 3
      case JUMPINS => 4
    }
  }

  /** Scoring configuration: read-only for the aligner. */
  datatype AlignmentScores = AlignmentScores(
    matchScore: int,  // added when the query and reference symbols are equal
    mismatch: int,    // added when they differ
    open: int,        // charged once when a gap begins
    extend: int,      // charged for every gap position, the first included
    offEdge: int      // charged for every query symbol hanging off a reference end
  )

  /** The finite "impossible" score the recurrence adds to forbidden states. */
  const BadVal: int := -10000

  /** The outcome of max3: the maximum and the state code of its argument. */
  datatype Best = Best(score: int, from: AlignState)

  /** The state-s argument of (a, b, c): a for MATCH, b for DELETE, c for
      INSERT. */
  function Choice(a: int, b: int, c: int, s: AlignState): int {
    if s.MATCH? then a else if s.DELETE? then b else c
  }

  /** s names the first maximum of (a, b, c). */
  ghost predicate FirstMax(a: int, b: int, c: int, s: AlignState) {
    s.Index() < 3 &&
    Choice(a, b, c, s) >= a && Choice(a, b, c, s) >= b && Choice(a, b, c, s) >= c &&
    (s.DELETE? ==> a < b) && (s.INSERT? ==> a < c && b < c)
  }

  /** max3(out, a, b, c): the maximum of three scores and which one it is
      (MATCH for a, DELETE for b, INSERT for c); on a tie the earlier argument
      wins. */
  function Max3(a: int, b: int, c: int): (r: Best)
    ensures FirstMax(a, b, c, r.from) && r.score == Choice(a, b, c, r.from)
  {
    var m0 := Best(a, MATCH);
    var m1 := if b > m0.score then Best(b, DELETE) else m0;
    if c > m1.score then Best(c, INSERT) else m1
  }

  /** The first maximum is unique: the pointer the recurrence records is the
      only state that satisfies the tie-breaking rule. */
  lemma FirstMaxUnique(a: int, b: int, c: int, s: AlignState, t: AlignState)
    requires FirstMax(a, b, c, s) && FirstMax(a, b, c, t)
    ensures s == t
  {
  }

  /** The best terminal cell seen so far during the recurrence. */
  datatype BackTrace = BackTrace(
    max: int,
    state: AlignState,
    queryBegin: nat,
    refBegin: nat,
    isInit: bool
  )

  /** The record before any candidate has been offered. */
  const EmptyBackTrace: BackTrace := BackTrace(0, MATCH, 0, 0, false)

  /** updateBacktrace(score, refIndex, queryIndex, bt): replace the stored
      terminal when nothing is stored yet or when score is strictly greater. */
  function UpdateBacktrace(score: int, refIndex: nat, queryIndex: nat, bt: BackTrace): (r: BackTrace)
    ensures r.isInit && r.max >= score
    ensures bt.isInit ==> r.max >= bt.max
    ensures r == bt || (r.state == MATCH && r.queryBegin == queryIndex && r.refBegin == refIndex)
    // kept on a tie or a smaller score, replaced by exactly the offered cell otherwise
    ensures bt.isInit && score <= bt.max ==> r == bt
    ensures !bt.isInit || score > bt.max ==>
              r.max == score && r.state == MATCH && r.queryBegin == queryIndex && r.refBegin == refIndex
  {
    if !bt.isInit || score > bt.max then BackTrace(score, MATCH, queryIndex, refIndex, true) else bt
  }
}
