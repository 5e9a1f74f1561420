# Manta global aligner: a verified model

This project models the affine-gap global aligner of Manta's alignment library:

- `GlobalAligner::align` fills the dynamic-programming matrix.
- `SingleRefAlignerBase::backTraceAlignment` rebuilds the alignment path from it.

Both are modelled in their own imperative form: rolling score rows in arrays, a pointer matrix in a three-dimensional array, and loops with invariants. Each method is proved against specification functions, and what the source promises is proved about those functions as lemmas.

The aligner aligns a query against a reference. The query may hang off either end of the reference:

- The first row charges `offEdge` for every query symbol before the reference starts.
- The final scan charges `offEdge` for every query symbol past the reference end.
- Gaps cost `open` once (when the gap follows a match) and `extend` for every position.
- The gap states of the first query position get the finite "impossible" score `badVal = -10000` added, so a gap can get it twice.

Every cell holds a `{match, del, ins}` triple. The pointer matrix records, for each of the three states, which predecessor state won its maximum. On a tie the earlier argument wins (match, then delete, then insert). The best terminal is the first candidate with the maximum score, in the order the aligner offers them:

- the end of the query after every reference row;
- then every query position against the end of the reference.

The backtrace walks the pointers back from the terminal to the matrix edge. On the way it does four things:

- It emits run-length MATCH, DELETE and INSERT segments, with JUMP and JUMPINS read as DELETE and INSERT.
- It adds a trailing soft-clip for the query past the terminal and a leading one for the query left over where the walk stops.
- It reverses the path into forward order.
- It sets `beginPos` to the reference position where the walk stops.

Modules:

- `AlignerBase` (align_base.dfy): alignment states, the scoring configuration, and the two helpers the aligner calls, `max3` and `updateBacktrace`. Their bodies are not part of this model, so the behaviour stated for them here is taken as their definition.
- `AlignPath` (align_path.dfy): path segments and the alignment result, with `updatePath`, whose body is not part of this model. It also defines the meaning of a path: the unit operations it stands for, and how much query and reference it covers.
- `SingleRefAlignerShared` (single_ref_aligner_shared.dfy): the backtrace `BackTraceAlignment`, proved against the backward walk `Walk`/`WalkEnd` over the pointer matrix.
- `GlobalAlignerSpec` (global_aligner_spec.dfy): the recurrence as functions. This covers the cell (`Recur`), the rows (`InitRow`, `RowPrefix`, `Row`), the pointers (`PtrSpec`, `PtrRow`, `PtrColumn`), the terminal candidates and the terminal they select (`Candidates`, `Scan`, `Terminal`), and the walk and its score over the recurrence's pointers (`SpecWalk`, `WalkScore`).
- `GlobalAlignment` (global_aligner.dfy): the class `GlobalAligner` with `Align` and the methods its loops are split into. It proves that every array holds what the recurrence prescribes. `Align` ensures `RecurrenceAlignment`, which states:
  - The result's score is the best candidate score, and it is the score of the returned path.
  - The path is the backward walk from the terminal, reversed, between the two soft-clips.
  - The path covers the whole query.
  - `beginPos` plus the path's reference length is the terminal's reference position.
  - Segments are non-empty, opened and coalesced, and soft-clips only occur at the ends.

One property of the backtrace holds only in part: its path is coalesced (no two neighbours of one kind) only when the terminal's reference position is at least 1, or the terminal is the end of the query. With `refBegin == 0` and `0 < queryBegin < querySize`, `backTraceAlignment` pushes the trailing soft-clip and then the leading soft-clip as two neighbouring SOFT_CLIP segments. In that case the path is exactly those two soft-clips, the leading one first (`EdgeClips`). The global aligner never hands over such a terminal, since every candidate has a reference position of at least 1 (`TerminalIsBest`). So the result of `Align` is always coalesced.

## Model

| member | source | states |
|---|---|---|
| AlignerBase.AlignState.Index | src/c++/lib/alignment/SingleRefAlignerSharedImpl.hh:62 | a state's matrix code is below 5, and below 3 exactly for MATCH, DELETE and INSERT |
| AlignerBase.Max3 | src/c++/lib/alignment/GlobalAlignerImpl.hh:90-94 | max3 returns the first maximum (FirstMax): its score is the argument its state names and at least each argument; DELETE wins only over a strictly smaller first argument, and INSERT only over two strictly smaller ones |
| AlignerBase.FirstMaxUnique | src/c++/lib/alignment/GlobalAlignerImpl.hh:90-94 | the tie-breaking rule determines the recorded pointer uniquely |
| AlignerBase.UpdateBacktrace | src/c++/lib/alignment/GlobalAlignerImpl.hh:139 | an uninitialised record, or one whose max is strictly below the offered score, is replaced by exactly the offered score and cell in the MATCH state; otherwise (a tie included) the record is unchanged |
| AlignPath.UpdatePath | src/c++/lib/alignment/SingleRefAlignerSharedImpl.hh:66 | the open segment gets the requested type; a segment of another type is pushed unless it was never opened, and a fresh zero-length segment is opened |
| AlignPath.ReverseAt | src/c++/lib/alignment/SingleRefAlignerSharedImpl.hh:99 | element k of the reversed path is element n-1-k of the path |
| AlignPath.Reverse | src/c++/lib/alignment/SingleRefAlignerSharedImpl.hh:99 | the std::reverse of the path, as a function: the reversal has the length of the path (element by element in ReverseAt) |
| AlignPath.LengthsReverse | src/c++/lib/alignment/SingleRefAlignerSharedImpl.hh:99 | reversing a path keeps its query and reference coverage |
| AlignPath.ExpandReverse | src/c++/lib/alignment/SingleRefAlignerSharedImpl.hh:99 | the reversed path stands for the reversed unit operations |
| AlignPath.CoalescedReverse | src/c++/lib/alignment/SingleRefAlignerSharedImpl.hh:99 | reversing a coalesced path leaves it coalesced |
| AlignPath.ReverseShape | src/c++/lib/alignment/SingleRefAlignerSharedImpl.hh:99 | reversal keeps segments positive and opened, soft-clips at the ends only, and coalescing |
| AlignPath.UpdatePathPushes | src/c++/lib/alignment/SingleRefAlignerSharedImpl.hh:66-85 | updatePath followed by `ps.length++` appends one unit operation to the closed path |
| AlignPath.PushMeaning | src/c++/lib/alignment/SingleRefAlignerSharedImpl.hh:64-85 | appending one operation appends it to the path's meaning and adds what it consumes to the query and reference coverage |
| AlignPath.PushShape | src/c++/lib/alignment/SingleRefAlignerSharedImpl.hh:64-85 | appending an operation keeps the path positive and coalesced, and adds no interior soft-clip |
| SingleRefAlignerShared.StepOp | src/c++/lib/alignment/SingleRefAlignerSharedImpl.hh:64-83 | each of the five states emits MATCH, DELETE or INSERT; MATCH exactly for MATCH, DELETE exactly for DELETE or JUMP |
| SingleRefAlignerShared.Next | src/c++/lib/alignment/SingleRefAlignerSharedImpl.hh:64-79 | a step decreases the query index unless it deletes and the reference index unless it inserts, so queryBegin + refBegin strictly decreases |
| SingleRefAlignerShared.Walk | src/c++/lib/alignment/SingleRefAlignerSharedImpl.hh:60-86 | defines the unit operations the loop emits from the terminal, in emission order: one StepOp per step, the next state read from the pointer matrix at the current cell, until an index is 0 |
| SingleRefAlignerShared.WalkEnd | src/c++/lib/alignment/SingleRefAlignerSharedImpl.hh:60-86 | the walk stops with queryBegin == 0 or refBegin == 0 and never moves forward |
| SingleRefAlignerShared.BackTraceAlignment | src/c++/lib/alignment/SingleRefAlignerSharedImpl.hh:33-99 | from an initialised terminal within the matrix: the score is btrace.max; the path stands for leading soft-clip, reversed walk, trailing soft-clip; it covers querySize; beginPos plus the reference coverage is the terminal's refBegin; segments positive and opened; soft-clips only at the ends; coalesced when refBegin > 0 or queryBegin == querySize; when refBegin == 0 the path is exactly the leading soft-clip of queryBegin and the trailing one of querySize - queryBegin, each when non-empty (all of it as the predicate Backtraced) |
| SingleRefAlignerShared.Backtraced | src/c++/lib/alignment/SingleRefAlignerSharedImpl.hh:33-99 | defines what backTraceAlignment promises about its result, the clauses of the BackTraceAlignment row |
| SingleRefAlignerShared.TraceStep | src/c++/lib/alignment/SingleRefAlignerSharedImpl.hh:62-85 | one loop iteration keeps the walk invariant Tracing and decreases queryBegin + refBegin |
| SingleRefAlignerShared.CloseAlignment | src/c++/lib/alignment/SingleRefAlignerSharedImpl.hh:88-99 | pushing the open segment and the leading soft-clip and reversing yields every property of BackTraceAlignment |
| SingleRefAlignerShared.StartPath | src/c++/lib/alignment/SingleRefAlignerSharedImpl.hh:53-58 | before the walk the path holds just the trailing soft-clip of querySize - queryBegin, if any |
| SingleRefAlignerShared.TracingStep | src/c++/lib/alignment/SingleRefAlignerSharedImpl.hh:62-85 | emitting the state's operation, stepping back and reading the predecessor state from the matrix keeps Tracing |
| SingleRefAlignerShared.PathStep | src/c++/lib/alignment/SingleRefAlignerSharedImpl.hh:66-85 | one emitted operation keeps the path's meaning, coverage and shape invariant |
| SingleRefAlignerShared.PushRecorded | src/c++/lib/alignment/SingleRefAlignerSharedImpl.hh:64-85 | appending one step to the closed backward path keeps its record of operations, coverage and shape |
| SingleRefAlignerShared.TracingDone | src/c++/lib/alignment/SingleRefAlignerSharedImpl.hh:88-99 | once the walk reaches the edge, the closed, soft-clipped and reversed path has every property of BackTraceAlignment |
| SingleRefAlignerShared.ForwardPath | src/c++/lib/alignment/SingleRefAlignerSharedImpl.hh:88-99 | pushing the leading soft-clip and reversing turns trailing clip + walk into leading clip + reversed walk + trailing clip, with the coverage and shape kept |
| SingleRefAlignerShared.LeadFacts | src/c++/lib/alignment/SingleRefAlignerSharedImpl.hh:90-96 | the leading soft-clip adds queryBegin to the query coverage and keeps the shape |
| SingleRefAlignerShared.EdgeTrace | src/c++/lib/alignment/SingleRefAlignerSharedImpl.hh:53-99 | from a terminal in reference column 0 the loop takes no step, and the forward path is exactly the leading and the trailing soft-clip |
| SingleRefAlignerShared.ClipsOnlyPath | src/c++/lib/alignment/SingleRefAlignerSharedImpl.hh:53-86 | a backward path that records only the trailing soft-clip and covers no reference is that soft-clip alone, at the start cell |
| SingleRefAlignerShared.ClipsOnly | src/c++/lib/alignment/SingleRefAlignerSharedImpl.hh:53-99 | with no walk step, the forward path is the leading soft-clip followed by the trailing one, each when non-empty |
| SingleRefAlignerShared.ReverseOps | src/c++/lib/alignment/SingleRefAlignerSharedImpl.hh:99 | reversing trailing clip, walk, leading clip gives leading clip, reversed walk, trailing clip |
| GlobalAlignerSpec.Recur | src/c++/lib/alignment/GlobalAlignerImpl.hh:85-123 | each state's pointer is the first maximum of its three candidates; match adds match or mismatch to the diagonal maximum; delete (from the cell above) and insert (from the cell to the left) add open to the match candidate, and extend plus badVal at the first query position |
| GlobalAlignerSpec.InitRow | src/c++/lib/alignment/GlobalAlignerImpl.hh:53-64 | before any reference symbol, cell i is (i * offEdge, badVal, badVal) for every i in 0..Q |
| GlobalAlignerSpec.RowPrefix | src/c++/lib/alignment/GlobalAlignerImpl.hh:74-79 | every reference row starts with (0, badVal, badVal) |
| GlobalAlignerSpec.RowColumnZero | src/c++/lib/alignment/GlobalAlignerImpl.hh:74-79 | cell 0 of every reference row of the matrix is (0, badVal, badVal) |
| GlobalAlignerSpec.RowPrefixAt | src/c++/lib/alignment/GlobalAlignerImpl.hh:82-123 | a cell of the row does not depend on how far the inner loop has gone past it |
| GlobalAlignerSpec.Row | src/c++/lib/alignment/GlobalAlignerImpl.hh:46-47 | every score row has Q + 1 cells |
| GlobalAlignerSpec.PtrSpec | src/c++/lib/alignment/GlobalAlignerImpl.hh:87-123 | every pointer the recurrence records is MATCH, DELETE or INSERT |
| GlobalAlignerSpec.PtrRowAt | src/c++/lib/alignment/GlobalAlignerImpl.hh:86-123 | entry i - 1 of a row's pointers is the recurrence's pointer at cell i |
| GlobalAlignerSpec.PtrColumnAt | src/c++/lib/alignment/GlobalAlignerImpl.hh:87 | entry i - 1 of pointer column j is the pointer of cell (i, j) |
| GlobalAlignerSpec.CellRecurrence | src/c++/lib/alignment/GlobalAlignerImpl.hh:85-123 | cell (i, j) of the matrix and its pointers are Recur of the cells (i-1, j-1), (i, j-1) and (i-1, j) |
| GlobalAlignerSpec.CandidatesInMatrix | src/c++/lib/alignment/GlobalAlignerImpl.hh:135-150 | every terminal candidate lies on query position Q or reference position R, has reference position in 1..R, and scores its cell's match value plus offEdge for each query symbol past it |
| GlobalAlignerSpec.RowCandidatesInMatrix | src/c++/lib/alignment/GlobalAlignerImpl.hh:135-140 | candidate k of the row scan is match[Q] of row k + 1 at (Q, k + 1) |
| GlobalAlignerSpec.EdgeCandidatesInMatrix | src/c++/lib/alignment/GlobalAlignerImpl.hh:144-150 | candidate k of the final scan is match[k] of the last row plus (Q - k) * offEdge at (k, R) |
| GlobalAlignerSpec.ScanSnoc | src/c++/lib/alignment/GlobalAlignerImpl.hh:139 | offering one more candidate is one more updateBacktrace |
| GlobalAlignerSpec.Scan | src/c++/lib/alignment/GlobalAlignerImpl.hh:135-150 | defines the record after the updateBacktrace calls on a sequence of candidates, in order, from a default record |
| GlobalAlignerSpec.Candidates | src/c++/lib/alignment/GlobalAlignerImpl.hh:135-150 | defines the terminal candidates in offering order: match[Q] after each reference row, then match[i] + (Q - i) * offEdge of the last row for i in 0..Q |
| GlobalAlignerSpec.Terminal | src/c++/lib/alignment/GlobalAlignerImpl.hh:66-150 | defines the record handed to the backtrace: the scan of all candidates |
| GlobalAlignerSpec.ScanFirstMax | src/c++/lib/alignment/GlobalAlignerImpl.hh:135-150 | the record after a non-empty scan is the first maximum candidate, in the MATCH state: no candidate scores higher, every earlier one scores lower |
| GlobalAlignerSpec.TerminalIsBest | src/c++/lib/alignment/GlobalAlignerImpl.hh:135-161 | the terminal is initialised, in MATCH, with queryBegin in 0..Q and refBegin in 1..R, on the last query or reference position; it scores its cell plus the overhang, is reached by a candidate, and no candidate scores higher |
| GlobalAlignerSpec.CellStepScore | src/c++/lib/alignment/GlobalAlignerImpl.hh:85-123 | the value of a state at an inner cell is its step score plus the value of the recorded predecessor state at the predecessor cell |
| GlobalAlignerSpec.WalkScoreIsCell | src/c++/lib/alignment/GlobalAlignerImpl.hh:53-123 | every value of the matrix is the score of the path its pointers trace back from it: step scores plus the edge value where the walk stops |
| GlobalAlignerSpec.TerminalPathScore | src/c++/lib/alignment/GlobalAlignerImpl.hh:144-161 | the terminal's score is the score of the path traced back from it plus offEdge for each query symbol past it |
| GlobalAlignerSpec.SpecWalk | src/c++/lib/alignment/SingleRefAlignerSharedImpl.hh:60-86 | defines the walk of the backtrace loop over the recurrence's pointers PtrSpec instead of an array |
| GlobalAlignerSpec.SpecWalkEnd | src/c++/lib/alignment/SingleRefAlignerSharedImpl.hh:60-86 | defines the cell at which that walk stops |
| GlobalAlignerSpec.WalkScore | src/c++/lib/alignment/GlobalAlignerImpl.hh:53-123 | defines the affine-gap score of the walked path: match or mismatch per match step, extend per gap step plus open after a match and badVal at the first query position, and the edge value where it stops |
| GlobalAlignerSpec.RecurrenceAlignment | src/c++/lib/alignment/GlobalAlignerImpl.hh:31-162 | defines the promise of align as RecurrenceScore and RecurrencePath |
| GlobalAlignerSpec.RecurrenceScore | src/c++/lib/alignment/GlobalAlignerImpl.hh:135-161 | defines the score part: the best candidate score, reached by a candidate, equal to the walked path's score plus overhang |
| GlobalAlignerSpec.RecurrencePath | src/c++/lib/alignment/GlobalAlignerImpl.hh:156-161 | defines the path part: leading soft-clip, reversed SpecWalk, trailing soft-clip; covers the query; ends at the terminal's reference position; positive, coalesced, clips at the ends only |
| GlobalAlignerSpec.ScoreMeaning | src/c++/lib/alignment/GlobalAlignerImpl.hh:135-161 | a result carrying the terminal's score has the recurrence's score (RecurrenceScore) |
| GlobalAlignment.PtrAt | src/c++/lib/alignment/GlobalAlignerImpl.hh:87-123 | every cell of a filled pointer matrix with both indices at least 1 holds the recurrence's pointer |
| GlobalAlignment.PtrClosed | src/c++/lib/alignment/GlobalAlignerImpl.hh:87-123 | a filled pointer matrix only points at the three states it stores |
| GlobalAlignment.PathMeaning | src/c++/lib/alignment/GlobalAlignerImpl.hh:156-161 | the path backTraceAlignment promises (Backtraced) over the filled matrix from the recurrence's terminal is the recurrence's path (RecurrencePath) |
| GlobalAlignment.WalkAgrees | src/c++/lib/alignment/GlobalAlignerImpl.hh:156-161 | the backtrace's walk over the filled matrix is the walk over the recurrence's pointers |
| GlobalAlignment.GlobalAligner.Align | src/c++/lib/alignment/GlobalAlignerImpl.hh:31-162 | for a non-empty query and reference, the result is the alignment the recurrence defines (RecurrenceAlignment): best candidate score, equal to the path's score, with the path, coverage and shape properties above |
| GlobalAlignment.GlobalAligner.TraceMeaning | src/c++/lib/alignment/GlobalAlignerImpl.hh:156-161 | what backTraceAlignment promises over the filled matrix and the recurrence's terminal is RecurrenceAlignment |
| GlobalAlignment.GlobalAligner.ScanEdge | src/c++/lib/alignment/GlobalAlignerImpl.hh:144-150 | after the final scan over the last row, the record is the recurrence's terminal |
| GlobalAlignment.GlobalAligner.EdgeStep | src/c++/lib/alignment/GlobalAlignerImpl.hh:145-150 | one iteration of the final scan offers the next edge candidate |
| GlobalAlignment.GlobalAligner.FillMatrix | src/c++/lib/alignment/GlobalAlignerImpl.hh:50-142 | after the outer loop, the current row is the last row of the matrix, every pointer column holds the recurrence's pointers, the record has seen every row candidate, and row 0 and column 0 of the pointer matrix are untouched |
| GlobalAlignment.GlobalAligner.ReferenceRow | src/c++/lib/alignment/GlobalAlignerImpl.hh:72-140 | one outer iteration computes row refIndex + 1 and its pointer column, keeps the earlier columns, and offers that row's candidate |
| GlobalAlignment.GlobalAligner.RowStep | src/c++/lib/alignment/GlobalAlignerImpl.hh:135-140 | offering match[Q] of the new row extends the row scan by one |
| GlobalAlignment.GlobalAligner.InitScores | src/c++/lib/alignment/GlobalAlignerImpl.hh:58-64 | the first row is InitRow |
| GlobalAlignment.GlobalAligner.FillRow | src/c++/lib/alignment/GlobalAlignerImpl.hh:74-130 | from the previous row, the current row becomes the recurrence's row and column refIndex + 1 of the pointer matrix its pointers; no other pointer cell and no cell of row 0 changes |
| GlobalAlignment.GlobalAligner.FillCell | src/c++/lib/alignment/GlobalAlignerImpl.hh:83-123 | one inner iteration extends the computed row prefix and pointer column by one cell |
| GlobalAlignment.GlobalAligner.UpdateCell | src/c++/lib/alignment/GlobalAlignerImpl.hh:85-123 | cell queryIndex + 1 becomes Recur of the diagonal, upper and left cells and its pointers are written; no other score cell and no pointer cell outside rows 1.. of that column changes |

## Left out

- The `ALN_DEBUG` logging and `operator<<` only produce output, so they are not modelled.
- `apath_add_seqmatch` splits MATCH segments into sequence-match and mismatch segments. Its body is not part of this model, so the result is the path as it stands just before that call.
- The bodies of `max3`, `updateBacktrace`, `AlignerUtil::updatePath`, `AlignmentResult::clear`, the matrix type and the `ALIGNPATH` types are not part of this model. `Max3`, `UpdateBacktrace`, `UpdatePath`, `PathSegment` and the `array3` pointer matrix state their assumed behaviour. A default `BackTrace` is assumed uninitialised (`EmptyBackTrace`).
- The state codes are assumed to be MATCH = 0, DELETE = 1, INSERT = 2, JUMP = 3, JUMPINS = 4.
- The matrix of `PtrVal` records is modelled as an `array3` with one plane per state code.
- The iterator ranges become sequences `query` and `ref` of a symbol type with equality. Scores are unbounded integers, so an overflow of `ScoreType` is not modelled.
- The unsigned products `queryIndex * offEdge` and `(querySize - queryIndex) * offEdge` are taken as mathematical integers. In two's complement the unsigned wrap-around gives the same value back whenever that value fits in `ScoreType`.
- The `_score1`, `_score2` and `_ptrMat` members are reused across calls in the source. `Align` allocates fresh arrays per call instead; the reuse only saves capacity.
- The recurrences that produce JUMP and JUMPINS belong to other aligner variants. Only their backtrace handling is modelled; `ClosedPointers` requires a matrix with a plane for every state it can be asked about.
- `std::reverse` on the path is modelled by the function `Reverse`, not as an in-place reversal.
- The source writes the new cell's triple field by field: `max3` writes into the cell, then `+=` is applied. `UpdateCell` writes the finished triple in one assignment. The values are the same, because the three maxima read only other cells.
- `result.clear()` is not modelled separately: the result is built from an empty path.
