# Verification of PAR4ALL's numerical kernels, run-times and tools

These Dafny modules model the parts of PAR4ALL whose correctness spans several functions, and
prove what those parts are for. C `float` and `double` are exact reals, C integers and
polylib's `Value` are integers without bound. Code that changes arrays or fields in place is a
method on arrays or a class; each such method is proved against a reference function, and the
theorems are lemmas about the reference.

- **Exact linear algebra.** `Sums`, `LU`, `Factorization` and `Ludcmp` (LU from the left and
  from the right, the in-place solver), `GramSchmidt` and `OrthonormalFactors` (modified
  Gram-Schmidt), `Gcd`, `Gauss`, `GaussInPlace`, `GaussStep`, `GaussKernel`,
  `GaussCanonical` and `GaussUnique` (polylib's `GaussSimplify`), `IntegerPoints` (`exist_points`).
  `GaussSimplify` promises to zero out the rest of the pivot's column (line 374), but the
  multipliers are absolute values (lines 379 to 384; line 381 also has a stray parenthesis).
  The model has the multiplier as written, `Magnitude`, and the signed one it was meant to be,
  `Signed`. Both keep the solutions; the signed one always leaves the canonical form, and
  `MagnitudeReducedIff` says exactly when the code as written does: when no row that a step
  combines has a negative entry in the pivot's column. Gcd normalisation includes the code's
  early exits: `Vector_Gcd` of a zero vector is 1. `exist_points` takes an unbounded inner
  level for one without points; `AnswerRightIff` says exactly when its answer is right.
- **SCMP hand-off.** `Scmp` has one task's calls with the requests they make to SESAM, and the
  resizing of a producer's buffer. The other modules have any number of task clones that run
  the same calls, with sizes that change, on any number of buffers: `ScmpProgram` has the calls
  and the generations of each buffer (its successive allocations), `ScmpProtocol` the steps and
  the counts behind the invariant, `ScmpMaps` the pointers, `ScmpRuns` what every run keeps,
  `ScmpProgress` absence of deadlock, termination and delivery, `ScmpRequests` the link to the
  requests of `Scmp`. Tokens belong to the pages of one allocation, while a request only names
  the buffer and reaches what is allocated to it at that moment. Tasks read and write through
  the pointer that their last map gave them. A consumer maps without waiting for its producer
  (line 65 of p4a_scmp.c), so it can get the allocation that is about to be released:
  `ScmpStale` has the failing runs, and the exact maps, rounds and programs that are right in
  every run. Assumed of SESAM: a wait blocks until the token is there and takes it, a send does
  not block, a map waits while the buffer has no allocation and then gives the current one, a
  new allocation has all its pages free for writing, a pointer to an allocation that has been
  released finds what was last written there, and beyond its pages anything.
- **Accelerator run-time.** `Boxes`, `BoxCopy`, `BoxRight`, `BoxWritten`, `BoxContiguous` and
  `BoxStubs` (copies of boxes; the three- and four-dimensional copies advance rows by a line
  instead of a plane, `Written`, against `Corrected`), `Launch` (block and grid sizes),
  `KernelRun` and `Jacobi` (kernels over the threads of a grid against loop nests), `AccelMap`
  (the map from host to accelerator areas).
- **Smaller algorithms.** `ParticleMesh` and `Forces` (Stars-PM), `Worklist` (the validation's
  directories), `LineSplitter` (reading a process's output). `Arithmetic` and `Bytes` are
  shared.

A copy of n dimensions takes its sizes, block sizes and offsets as a list, outermost first; the
one- to four-dimensional functions of the source are the lists of length one to four, and each
calls the next lower one as the source does.

## Model

| member | source | states |
|---|---|---|
| `GaussInPlace.GaussSimplify` | packages/polylib/source/oldpolytest.c:347-394 | in place, for a matrix of any size and either multiplier: the states lead column by column as stated below to the rank, pivot columns and entries left; the same solutions as before; and the canonical form exactly when the multiplier is signed or, as written, no column meets a negative entry |
| `GaussInPlace.EliminateColumn` | packages/polylib/source/oldpolytest.c:348-393 | one column: nothing happens when no row from the rank on has an entry in it; or else the first such row becomes the primitive pivot row, with a positive entry, and every other row is the one cleared by it |
| `GaussInPlace.SearchPivot` | packages/polylib/source/oldpolytest.c:349-351 | the first row at or below the rank with an entry in the column, or the number of rows |
| `GaussInPlace.NormalisePivotRow` | packages/polylib/source/oldpolytest.c:356-371 | the pivot row becomes its primitive row with a positive pivot, the other rows stay |
| `GaussInPlace.ClearRow` | packages/polylib/source/oldpolytest.c:375-390 | the row left is p when its entry is zero, or else a row c of gcd 1 with g c = |q[j]| p - m q for some g > 0, where m is |p[j]| as written and p[j] when signed; the others stay |
| `GaussInPlace.VectorExchange` | packages/polylib/source/kernel/vector.c:256-264 | two rows change places, the others stay |
| `GaussInPlace.VectorMinNotZero` | packages/polylib/source/kernel/vector.c:469-493 | the least absolute value that is not zero and its place, or 1 for a zero vector |
| `GaussInPlace.VectorGcd` | packages/polylib/source/kernel/vector.c:498-541 | the remainder loop ends and its result is the gcd of the row, 1 for a zero row |
| `Gcd.RowGcdUnique` | packages/polylib/source/kernel/vector.c:495-541 | the gcd of a row is the one positive number that the divisors of the whole row all divide and that divides the row |
| `GaussInPlace.VectorCombine` | packages/polylib/source/kernel/vector.c:434-448 | the row becomes the integer combination of two rows, the others stay |
| `GaussInPlace.VectorNormalize` | packages/polylib/source/kernel/vector.c:568-581 | the row becomes its primitive row, the others stay |
| `Gcd.PrimitiveGcd` | packages/polylib/source/kernel/vector.c:568-581 | dividing a row that is not zero by its gcd leaves gcd 1 |
| `GaussStep.ClearedRowIs` | packages/polylib/source/oldpolytest.c:376-389 | the reference's cleared row is one such row, for both multipliers |
| `GaussStep.ClearedUnique` | packages/polylib/source/oldpolytest.c:376-389 | there is only one such row |
| `GaussStep.StepUnique` | packages/polylib/source/oldpolytest.c:348-393 | the state before a column fixes the state after it |
| `GaussStep.EliminationUnique` | packages/polylib/source/oldpolytest.c:347-394 | the matrix and the multiplier fix every state of the elimination |
| `GaussKernel.RunKeepsSolutions` | packages/polylib/source/oldpolytest.c:347-394 | as written or with the signed multiplier, elimination keeps exactly the vectors v with Mat1 v = 0, entries of any sign |
| `GaussCanonical.SignedRunReduced` | packages/polylib/source/oldpolytest.c:347-394 | with the signed multiplier: pivot columns increase, pivots are positive and alone in their columns, the first Rank rows have gcd 1, the rest are zero |
| `GaussUnique.FreeSolutionSolves` | packages/polylib/source/oldpolytest.c:325-326 | every column without a pivot gives a solution of the reduced matrix |
| `GaussUnique.CanonicalFormUnique` | packages/polylib/source/oldpolytest.c:325-326 | two reduced matrices with the same solutions have the same rank, pivots and first Rank rows |
| `GaussUnique.SameSolutionsIffSameForm` | packages/polylib/source/oldpolytest.c:325-394 | two matrices have the same solutions if and only if elimination with the signed multiplier gives the same rank and the same first Rank rows |
| `GaussCanonical.MagnitudeClearsIff` | packages/polylib/source/oldpolytest.c:374-384 | the step as written zeroes the rest of its column if and only if no other row that it combines has a negative entry there once the pivot is placed |
| `GaussCanonical.MagnitudeStepIff` | packages/polylib/source/oldpolytest.c:374-384 | the same condition holds if and only if the step as written and the signed step do the same |
| `GaussCanonical.MagnitudeReducedIff` | packages/polylib/source/oldpolytest.c:347-394 | what the code as written leaves is in canonical form if and only if that condition holds in every column |
| `GaussCanonical.MagnitudeRunIff` | packages/polylib/source/oldpolytest.c:347-394 | after every number of columns the run as written agrees with the signed run if and only if that condition holds in every column |
| `GaussCanonical.MagnitudeCounterexample` | packages/polylib/source/oldpolytest.c:374-384 | on the rows (1,1) and (-1,-1) the code as written leaves -1 below the pivot and finds rank 2 instead of 1 |
| `IntegerPoints.LowerUpperBounds` | packages/polylib/source/kernel/polyhedron.c:3805-3915 | the interval holds exactly the values that meet all constraints of the level for the outer indices |
| `IntegerPoints.Narrow` | packages/polylib/source/kernel/polyhedron.c:3824-3899 | one constraint of any kind and sign narrows the interval by exactly the values it excludes |
| `IntegerPoints.BoundedIffFinite` | packages/polylib/source/kernel/polyhedron.c:3822-3902 | no side is infinite if and only if the values that meet the level are bounded |
| `IntegerPoints.ExistPoints` | packages/polylib/source/oldpolytest.c:49-99 | -1 exactly when the first level is unbounded, 1 exactly when the search finds a point; then the context holds, but for its last coordinate, the lexicographically first point along which every level is bounded, and otherwise it is what it was |
| `IntegerPoints.FirstPointUnique` | packages/polylib/source/oldpolytest.c:83-94 | there is at most one such first point |
| `IntegerPoints.FoundIffBoundedPoint` | packages/polylib/source/oldpolytest.c:49-99 | for all levels, the search finds a point exactly when some integer point meets every level and each level is bounded at that point's outer values |
| `IntegerPoints.BoundedAlongIffEnclosed` | packages/polylib/source/kernel/polyhedron.c:3822-3902 | along a point, the levels are bounded if and only if each has an equality, or constraints of both signs, for its own index |
| `IntegerPoints.FoundIffEnclosedPoint` | packages/polylib/source/oldpolytest.c:49-99 | the search finds a point if and only if every level is enclosed in this way and an integer point exists |
| `IntegerPoints.AnswerRightIff` | packages/polylib/source/oldpolytest.c:58-66 | the answer agrees with the existence of a point if and only if every level is enclosed or there is no point |
| `IntegerPoints.FoundIffPoint` | packages/polylib/source/oldpolytest.c:49-99 | with levels bounded at all outer values the search finds a point exactly when one exists, the last level's shortcut included |
| `IntegerPoints.UnboundedLevelHidesPoints` | packages/polylib/source/oldpolytest.c:58-66 | the constraints x = 0 and y >= 0 have the point (0, 0), which the search does not find |
| `IntegerPoints.PolyhedronNotEmpty` | packages/polylib/source/oldpolytest.c:104-131 | from the zero context with constant 1: 1 exactly when every level is enclosed and an integer point exists, -1 exactly when the first level is unbounded, 0 otherwise |
| `Factorization.Lud99` | examples/Benchmarks/rodinia/lud/lud99.c:88-100 | in place, for every size with no zero among the pivots that the nest divides by (all but the last): the unit lower triangle times the upper triangle left in the array is the array before; each entry is the reference factor's |
| `Factorization.LeftFactorsMultiplyBack` | examples/Benchmarks/rodinia/lud/lud99.c:88-100 | unit lower times upper factor is the original matrix |
| `Factorization.LuRightLooking` | examples/Benchmarks/polybenchs/lu/lu.c:76-82 | in place, under the same condition: the lower triangle times the unit upper triangle left in the array is the array before; each entry is the reference factor's |
| `Factorization.RightFactorsMultiplyBack` | examples/Benchmarks/polybenchs/lu/lu.c:76-82 | lower times unit upper factor is the original matrix |
| `Factorization.LeftAndRightAgree` | examples/Benchmarks/rodinia/lud/lud99.c:80-104 | both factorisations give the matrix back, with equal diagonals, and each upper row of lud_99 is its pivot times the unit upper row of lu |
| `Factorization.FactorsAreUnique` | examples/Benchmarks/rodinia/lud/lud99.c:88-100 | any factorisation into a unit lower and an upper triangle with no zero on its diagonal, the last place aside, is the one computed |
| `Factorization.PivotsNonzeroIffFactorable` | examples/Benchmarks/rodinia/lud/lud99.c:97-98 | no pivot, or none but the last, is zero if and only if a factorisation with such a diagonal exists |
| `Ludcmp.Solve` | examples/Benchmarks/polybenchs/ludcmp/ludcmp.c:81-109 | after b[0] is set to 1, the x left is the one and only solution of (original a) x = b |
| `LU.ColumnThenRow` | examples/Benchmarks/polybenchs/ludcmp/ludcmp.c:82-95 | the column and row loops leave the packed factors of a |
| `Ludcmp.ForwardSubstitution` | examples/Benchmarks/polybenchs/ludcmp/ludcmp.c:96-102 | y is the forward substitution of b |
| `Ludcmp.BackSubstitution` | examples/Benchmarks/polybenchs/ludcmp/ludcmp.c:103-109 | x is the back substitution of y |
| `Ludcmp.SolutionUnique` | examples/Benchmarks/polybenchs/ludcmp/ludcmp.c:96-109 | for factors that multiply to A, z solves A z = b exactly when it is what the two substitutions give |
| `OrthonormalFactors.ModifiedGramSchmidt` | examples/Benchmarks/polybenchs/gramschmidt/gramschmidt.c:83-97 | in place: with exact roots the arrays q and r are factors of the a before, the columns of q orthonormal and r triangular; q, r and the columns left in a are those of the reference, the rest of r is untouched |
| `GramSchmidt.FactorStep` | examples/Benchmarks/polybenchs/gramschmidt/gramschmidt.c:84-96 | one k: norm, unit column, coefficients and the columns to the right |
| `OrthonormalFactors.QrFactorisation` | examples/Benchmarks/polybenchs/gramschmidt/gramschmidt.c:83-97 | for every size, with exact roots and nonzero norms: A = Q R, the columns of Q are orthonormal, R is upper triangular |
| `OrthonormalFactors.OrthonormalPair` | examples/Benchmarks/polybenchs/gramschmidt/gramschmidt.c:87-95 | any arrays that meet the loop's equations have orthonormal columns |
| `OrthonormalFactors.NormsNonzeroIffIndependent` | examples/Benchmarks/polybenchs/gramschmidt/gramschmidt.c:87-89 | no norm is zero if and only if the columns of A are independent |
| `Scmp.Task.Reset` | src/scmp/p4a_scmp.c:11-18 | every buffer size is zero |
| `Scmp.Task.WaitAllPages` | src/scmp/p4a_scmp.c:20-25 | waits for pages 0, 1, ... in order, so many that they hold more than the size and one less does not |
| `Scmp.Task.SendAllPages` | src/scmp/p4a_scmp.c:27-32 | sends the same pages in order |
| `Scmp.AskedIff` | src/scmp/p4a_scmp.c:20-32 | page i is waited for, or sent, if and only if i * page size <= size, and then exactly once |
| `Scmp.PagesAre` | src/scmp/p4a_scmp.c:23-23 | size/page size + 1 is the number of pages P with (P-1) * page size <= size < P * page size |
| `Scmp.ProducerChangesSize` | src/scmp/p4a_scmp.c:43-62 | what a producer asks for: waits for every page of the old size, a free, the reservation and assignment of the new number of pages, waits for those |
| `Scmp.Task.AccelMalloc` | src/scmp/p4a_scmp.c:34-68 | the requests of each case (no buffer, same size, other size, not the producer, do_it off), with the numbers of pages waited for and reserved fixed by the sizes in bytes, and the recorded size |
| `Scmp.Task.AccelFree` | src/scmp/p4a_scmp.c:70-85 | the consumer sends every page of the recorded size for writing; then the buffer is unmapped |
| `Scmp.Task.CopyToServer` | src/scmp/p4a_scmp.c:111-133 | the bytes of the block reach the buffer, nothing else of it changes, and every page is sent for reading |
| `Scmp.Task.CopyFromServer` | src/scmp/p4a_scmp.c:87-109 | every page is waited for, and the bytes of the buffer reach the block of the host array and nothing else |
| `Scmp.Task.CopyFrom` | src/scmp/p4a_scmp.c:135-151 | the kernel that produces sends every page for reading |
| `Scmp.Task.CopyTo` | src/scmp/p4a_scmp.c:153-169 | the kernel that consumes waits for every page for reading |
| `Scmp.PagesCoverBytes` | src/scmp/p4a_scmp.c:23-31 | every byte of a buffer is on a page that the waits and sends go through |
| `Scmp.RoundOutcome` | src/scmp/p4a_scmp.c:34-68 | a round that changes the size frees the old allocation only with every page in hand, and leaves every new page out |
| `Scmp.ResizingIsSafe` | src/scmp/p4a_scmp.c:34-85 | over any sequence of sizes no allocation is freed while a page is out; one is live at the end, plus one for each buffer of size zero before it |
| `ScmpRequests.OperationsAreRequests` | src/scmp/p4a_scmp.c:20-169 | the steps of a task in a call are all the requests that the run-time makes in it, the map and the unmap included, from any recorded size to any other |
| `ScmpProgram.StaysInStep` | src/scmp/p4a_scmp.c:34-68 | after any calls a buffer has a recorded size exactly when it has been allocated, and its current allocation is in step with its rounds |
| `ScmpProgram.OwnInUse` | src/scmp/p4a_scmp.c:34-85 | an allocation puts its generation in use, a copy keeps it, a release ends the use; and when that is the first round of a replacement |
| `ScmpProtocol.Meant` | src/scmp/p4a_scmp.c:34-169 | under the invariant a page request that can be carried out, and a release, reaches the allocation its task means |
| `ScmpMaps.MapStep` | src/scmp/p4a_scmp.c:65-65 | every step keeps that a producer's pointer addresses the generation in use, and a consumer's too but for the first round of a replacement |
| `ScmpRuns.NextInv` | src/scmp/p4a_scmp.c:20-169 | every step of every task keeps the invariant: tokens of each allocation follow from the requests made on it, logs from the fills and fetches, pointers from the maps |
| `ScmpRuns.RequestsReachMeant` | src/scmp/p4a_scmp.c:34-85 | in every reachable state a page request or release, which only names the buffer, reaches the allocation its task means, although sizes change and clones run apart |
| `ScmpRuns.MapsReachMeant` | src/scmp/p4a_scmp.c:65-65 | in every reachable state so does a producer's map, and a consumer's in a call that does not replace an allocation |
| `ScmpRuns.OneTokenPerPage` | src/scmp/p4a_scmp.c:20-169 | in every reachable state of any number of clones and buffers each page of the current allocation has one token, and no page ever has two |
| `ScmpRuns.UsedWhileHeld` | src/scmp/p4a_scmp.c:87-133 | a page is filled only while its producer holds its token for writing, and read only while its consumer holds it for reading; a fill goes to the page held, a fetch too but for the first round of a replacement |
| `ScmpRuns.ReleasedWhileHeld` | src/scmp/p4a_scmp.c:43-55 | an allocation is released only while its producer holds every page of it: no consumer holds one or could take one |
| `ScmpRuns.FetchedIsWritten` | src/scmp/p4a_scmp.c:87-133 | what a consumer reads from a page in a round is what its producer wrote there in that round, on a buffer's first allocation and after the first round on any other |
| `ScmpRuns.StartExists` | src/scmp/p4a_scmp.c:11-18 | every valid program has an initial state, hence runs |
| `ScmpProgress.NeverStuck` | src/scmp/p4a_scmp.c:34-85 | while some task has calls left, some task can step |
| `ScmpProgress.RunsEnd` | src/scmp/p4a_scmp.c:20-169 | every run has at most a fixed number of steps, and exactly that many when and only when every task has finished |
| `ScmpProgress.RunsComplete` | src/scmp/p4a_scmp.c:20-169 | every run can be continued to one in which every task has finished |
| `ScmpProgress.EveryRoundDelivered` | src/scmp/p4a_scmp.c:87-133 | when every task has finished, each page of each allocation has been written and read once for each copy on it, with equal values but for the first copy on a replacement |
| `ScmpStale.MapMeantIff` | src/scmp/p4a_scmp.c:65-65 | the maps of a call get what their tasks mean in every run if and only if the call does not replace an allocation |
| `ScmpStale.MapsMeantIff` | src/scmp/p4a_scmp.c:48-65 | every map of a program gets what its task means in every run if and only if no buffer that has an allocation is allocated with another size |
| `ScmpStale.WrongRound` | src/scmp/p4a_scmp.c:65-103 | the first copy on any replacement has a complete run in which each page is read from the allocation replaced, where it had that page, and not with the value written |
| `ScmpStale.RoundRightIff` | src/scmp/p4a_scmp.c:65-133 | a round is read as written in every run if and only if it is on a buffer's first allocation or not the first on its own |
| `ScmpStale.DataRightIff` | src/scmp/p4a_scmp.c:65-133 | all rounds of a program are read as written in every run if and only if no copy is on a second or later allocation of its buffer |
| `ScmpStale.ReplacingFails` | src/scmp/p4a_scmp.c:48-65 | with sizes 3 and 9 and pages of 4 bytes the consumer maps generation 1 in the call for generation 2, and reads 1 where 2 was written |
| `BoxCopy.CopyToAccel` | src/p4a_accel/p4a_accel-shared.c:116-359 | for one to four dimensions and more, merging and row by row, the method performs its one-dimensional copies in order |
| `BoxCopy.CopyFromAccel` | src/p4a_accel/p4a_accel-shared.c:84-324 | the same towards the host |
| `BoxRight.MoveToLinked` | src/p4a_accel/p4a_accel-shared.c:116-124 | a byte of the accelerator ends with the host byte that some copy connects it to, or unchanged |
| `BoxRight.MoveFromLinked` | src/p4a_accel/p4a_accel-shared.c:84-92 | the same towards the host |
| `Boxes.PosOfAddr` | src/p4a_accel/p4a_stubs.c:255-262 | every byte of the box has a place inside the host array, which determines the byte |
| `Boxes.AddrOfPos` | src/p4a_accel/p4a_stubs.c:255-262 | every byte of the host array in the box is the place of a byte of the box |
| `Boxes.MergeKeepsMap` | src/p4a_accel/p4a_accel-shared.c:136-144 | merging a last dimension that is copied whole changes neither the sizes nor the box map |
| `BoxRight.ThereAndBack` | src/p4a_accel/p4a_accel-shared.c:129-359 | copying a box to the accelerator and back restores the host array, and back and forth the box |
| `BoxRight.CorrectedIsRight` | src/p4a_accel/p4a_accel-shared.c:129-359 | with rows advancing by the size of all inner dimensions, every copy in both directions is the row-major box map and changes nothing else |
| `BoxWritten.WrittenLinks` | src/p4a_accel/p4a_accel-shared.c:227-239 | what the rows as written reach: consecutive lines on both sides, from the first line of the box |
| `BoxContiguous.WrittenStaysInside` | src/p4a_accel/p4a_accel-shared.c:207-359 | even where it copies wrong rows, the code as written stays inside both memories |
| `BoxContiguous.ContiguousIffRowsFollow` | src/p4a_accel/p4a_accel-shared.c:227-239 | the lines of the box are consecutive and all reached if and only if no dimension with several rows lies outside one that is not flat |
| `BoxContiguous.WrittenRightIff` | src/p4a_accel/p4a_accel-shared.c:129-359 | for nonempty boxes in range, in both directions, the code as written is right if and only if that condition holds once whole last dimensions are merged |
| `BoxContiguous.Written2d` | src/p4a_accel/p4a_accel-shared.c:129-200 | both branches of the two-dimensional copies are right for every box |
| `BoxContiguous.Written3d` | src/p4a_accel/p4a_accel-shared.c:207-281 | the three-dimensional copies are right if and only if the last dimension is whole, or d1_block_size <= 1, or d2_size = 1 |
| `BoxContiguous.Written4d` | src/p4a_accel/p4a_accel-shared.c:287-359 | the exact condition for the four-dimensional copies |
| `BoxContiguous.WrittenFails` | src/p4a_accel/p4a_accel-shared.c:238-239 | a 2x2x2 array with a 2x1x1 box is copied wrong in both directions |
| `BoxStubs.StubTo2d` | src/p4a_accel/p4a_stubs.c:165-179 | the two-dimensional stub leaves the reference box, hence what the run-time's copy leaves |
| `BoxStubs.StubFrom2d` | src/p4a_accel/p4a_stubs.c:184-199 | the same towards the host |
| `BoxStubs.StubIndex4d` | src/p4a_accel/p4a_stubs.c:255-262 | the index formulas of the four-dimensional stubs are the box map, for elements of one byte |
| `Launch.Create1d` | src/p4a_accel/p4a_accel-CUDA.h:440-452 | the block is all points up to 32, or the largest multiple of 32, at least 32, within the limit and 1/28 of the points; the grid covers the points without a superfluous block, with at least 28 blocks from 896 points |
| `Launch.BlockUnique1d` | src/p4a_accel/p4a_accel-CUDA.h:444-449 | the limit and the points fix that block |
| `Launch.ThreadsFor2d` | src/p4a_accel/p4a_accel-CUDA.h:465-467 | a multiple of 32, more than 32 only within the device's limit and if 28 blocks of one thread less do not reach all points, and 32 more would exceed the limit or what 28 blocks need |
| `Launch.ThreadsUnique` | src/p4a_accel/p4a_accel-CUDA.h:465-467 | the limit and the points fix that number |
| `Launch.Block2d` | src/p4a_accel/p4a_accel-CUDA.h:468-474 | from a first width f <= nx with f = nx or f >= 32 and f*f >= tpb, and f <= 32 or (f-1)*(f-1) < tpb: the height is the smaller of ny and floor(tpb/f), the width floor(tpb/height) |
| `Launch.BlockUnique` | src/p4a_accel/p4a_accel-CUDA.h:468-474 | threads and points fix that block |
| `Launch.BlockIsLarge` | src/p4a_accel/p4a_accel-CUDA.h:468-474 | it is at least min(nx, 32) wide, and tpb/2 < width*height <= tpb |
| `Launch.BlockOf512` | src/p4a_accel/p4a_accel-CUDA.h:468-474 | 32 by 16 for 512 threads and 1000 by 1000 points |
| `Launch.Create2d` | src/p4a_accel/p4a_accel-CUDA.h:458-480 | the same block; the grid covers both axes without a superfluous block, with at least 28 blocks as soon as nx*ny >= 896 |
| `Launch.Create3d` | src/p4a_accel/p4a_accel-CUDA.h:486-511 | the same in x and y, one block for each plane in z |
| `Launch.CreateOpenCl2d` | src/p4a_accel/p4a_accel-OpenCL.h:602-622 | each global size is the least multiple of the group's size strictly above the number of points |
| `KernelRun.OneThreadPerPoint` | src/p4a_accel/p4a_accel-CUDA.h:217-222 | each point of the iteration space is reached by exactly one thread of the grid |
| `KernelRun.AnyOrder` | src/p4a_accel/p4a_accel-CUDA.h:217-227 | for a kernel that writes distinct cells and reads other arrays, neither the order of the points nor repetition nor points that fail the guard matter |
| `KernelRun.GridRunIsNest` | src/p4a_accel/p4a_accel-CUDA.h:458-480 | running all threads of a covering grid in any order leaves what the sequential loop nest leaves |
| `Jacobi.PlainKernel1` | src/p4a_accel/jacobi/jacobi.c:86-91 | four times each inner entry is the sum of its four neighbours in the other array, the rest is untouched |
| `Jacobi.LaunchKernel1` | src/p4a_accel/jacobi/jacobi-terapix.c:105-116 | the strip-mined launch leaves the same, stated on the entries |
| `Jacobi.Kernel1` | src/p4a_accel/jacobi/jacobi-terapix.c:89-99 | one strip: at most ten rows hold the means, the rest is untouched |
| `Jacobi.GridKernel1` | src/p4a_accel/jacobi/jacobi.cu:92-143 | the kernel guarded by the loop bounds, over the threads in any order, leaves the same, stated on the entries |
| `Jacobi.RelaxedUnique` | src/p4a_accel/jacobi/jacobi-terapix.c:89-116 | that result is one array, so the three agree |
| `Jacobi.WrittenGuardIsInside` | src/p4a_accel/jacobi/jacobi.cu:127-128 | the guard as written keeps to points whose four neighbours are in the array only for arrays of at most one row |
| `ParticleMesh.Discretization` | examples/P4A/Stars-pm/sequential/1-discretization.c:7-22 | every particle gets x*NP*NP + y*NP + z for its coordinates' quotients rounded towards zero, wherever it is |
| `ParticleMesh.EncodedIsCellIff` | examples/P4A/Stars-pm/sequential/1-discretization.c:16-17 | that number is the cell of the grid whose slices hold the particle's coordinates if and only if the particle is in the box |
| `ParticleMesh.DecodeCell` | examples/P4A/Stars-pm/pgi/4-updatevel.c:15-18 | decoding undoes the encoding |
| `ParticleMesh.CellOfDecode` | examples/P4A/Stars-pm/pgi/4-updatevel.c:15-18 | encoding undoes the decoding, and the coordinates are in the grid |
| `ParticleMesh.HistogramFlat` | examples/P4A/Stars-pm/sequential/2-histogramme.c:20-29 | after the loop with casts each cell holds its number of particles |
| `ParticleMesh.HistogramNested` | examples/P4A/Stars-pm/sequential/2-histogramme.c:12-41 | the nested loops that decode leave the same |
| `ParticleMesh.HistogramTotal` | examples/P4A/Stars-pm/sequential/2-histogramme.c:9-44 | the histogram sums to the number of particles |
| `ParticleMesh.Int2Float` | examples/P4A/Stars-pm/sequential/3-potential.c:7-16 | the density is the histogram less one, in every cell |
| `ParticleMesh.DensityTotal` | examples/P4A/Stars-pm/sequential/3-potential.c:7-16 | the density sums to zero |
| `ParticleMesh.UpdateVelocity` | examples/P4A/Stars-pm/pgi/4-updatevel.c:5-23 | each particle's velocity along c grows by dt times the force of its cell, no other velocity changes |
| `ParticleMesh.GatherIsScatter` | examples/P4A/Stars-pm/pgi/4-updatevel.c:12-20 | summing over the particles what their cells give is summing over the cells by their numbers of particles |
| `ParticleMesh.VelocityTotal` | examples/P4A/Stars-pm/pgi/4-updatevel.c:5-23 | the velocities change in all by dt times the sum over the cells of histo times force |
| `Forces.MaskWraps` | examples/P4A/Stars-pm/pgi/4-updateforce.c:11-12 | masking with a power of two less one is wrapping around, for -1 as well |
| `Forces.Force` | examples/P4A/Stars-pm/pgi/4-updateforce.c:5-52 | 2 DX times each force entry is the difference of the periodic neighbours along its axis, stated on the entries |
| `Forces.ForceOfSlope` | examples/P4A/Stars-pm/pgi/4-updateforce.c:5-52 | away from the wrap the force of an evenly rising potential is its slope |
| `Forces.ForceTotal` | examples/P4A/Stars-pm/pgi/4-updateforce.c:5-52 | each force component sums to zero along every line of its axis |
| `Worklist.DirSubdirTest` | src/validation/p4a_validate_class.py:580-608 | terminates for every forest, number of processors and interleaving; the paths tested are those of all directories in the forest, once for each place, and of no missing path |
| `Worklist.AllAreAllPaths` | src/validation/p4a_validate_class.py:446-455 | the directories of a forest can be listed by their places, each once, missing paths aside, and the reference has their paths |
| `Worklist.RecursiveDirTest` | src/validation/p4a_validate_class.py:432-464 | tests the directories of its list once each and hands on all their subdirectories |
| `Worklist.Append` | src/validation/p4a_validate_class.py:459-464 | however the processes interleave their appends, the new list has the entries of all their shares, each as often |
| `Worklist.RunBatch` | src/validation/p4a_validate_class.py:586-605 | a batch tests its directories and leaves exactly their subdirectories to be tested |
| `AccelMap.Runtime.HostToAccel` | src/p4a_accel/p4a_communication_optimization_runtime.cpp:26-74 | a known pointer keeps its area, a new one gets an area of the size asked for that overlaps no other |
| `AccelMap.Runtime.CopyToAccel` | src/p4a_accel/p4a_communication_optimization_runtime.cpp:81-99 | resolves the pointer, then copies the bytes into its area |
| `AccelMap.Runtime.CopyFromAccel` | src/p4a_accel/p4a_communication_optimization_runtime.cpp:105-135 | copies the bytes back, or fails without a change when there is no mapping |
| `AccelMap.StepKeepsInv` | src/p4a_accel/p4a_communication_optimization_runtime.cpp:26-135 | every call keeps the mapping injective onto areas that do not overlap, and keeps all entries |
| `AccelMap.RunsKeepMapping` | src/p4a_accel/p4a_communication_optimization_runtime.cpp:26-135 | so does every run |
| `AccelMap.RunsFromStart` | src/p4a_accel/p4a_communication_optimization_runtime.cpp:26-135 | from an empty mapping every run keeps it so |
| `AccelMap.CopyRoundTrip` | src/p4a_accel/p4a_communication_optimization_runtime.cpp:81-135 | copy to, any calls on other pointers, copy back: the host bytes are those of the first call, provided no request exceeds its pointer's first size |
| `AccelMap.LeavesOthersIff` | src/p4a_accel/p4a_communication_optimization_runtime.cpp:81-99 | a request of n bytes on an area of m leaves every other mapped area alone in every state if and only if n <= m (n <= 1 for an empty area) |
| `AccelMap.LargerRequestOverwrites` | src/p4a_accel/p4a_communication_optimization_runtime.cpp:81-99 | the smallest case: two bytes asked for on an area of one |
| `LineSplitter.Runner.Feed` | src/simple_tools/p4a_util.py:424-437 | one read: chunk, collected text and handled lines are those of the stream with it; the loop goes on exactly when its complete lines join to something |
| `LineSplitter.Runner.ReadOutput` | src/simple_tools/p4a_util.py:421-441 | one call feeds pieces from the front, none after one whose lines join to nothing, and stops only there or at the end |
| `LineSplitter.AllConsumedIff` | src/simple_tools/p4a_util.py:421-441 | one call takes all pieces if and only if only the last may be one whose lines join to nothing |
| `LineSplitter.SilentIff` | src/simple_tools/p4a_util.py:426-437 | the complete lines join to nothing exactly when there are none or a single empty one |
| `LineSplitter.Runner.Poll` | src/simple_tools/p4a_util.py:465-470 | one read for each turn, of what was left and what has arrived since |
| `LineSplitter.PolledUnique` | src/simple_tools/p4a_util.py:465-470 | the arrivals fix what has been fed and what is left after every turn |
| `LineSplitter.ReadsUnique` | src/simple_tools/p4a_util.py:421-441 | the pieces fix what one read takes |
| `LineSplitter.PolledKeepsAll` | src/simple_tools/p4a_util.py:465-470 | polling loses, repeats and reorders nothing: what has been fed and what is left is all that arrived |
| `LineSplitter.Runner.RunAndWait` | src/simple_tools/p4a_util.py:465-479 | polling and then one read of what is left and the last pieces; everything has been fed if and only if none of those pieces before the last one is without a line to handle |
| `LineSplitter.PartialLineStops` | src/simple_tools/p4a_util.py:426-437 | a last read stops after a piece without a line break and leaves what follows |
| `LineSplitter.HandledAreLines` | src/simple_tools/p4a_util.py:424-437 | however the stream is cut, the lines handled are the complete lines of the whole stream in order, empty ones aside |
| `LineSplitter.CollectedIff` | src/simple_tools/p4a_util.py:426-431 | the text collected is the complete lines of the stream joined if and only if at most one of the pieces has a line break in it |
| `LineSplitter.TwoPiecesLoseBreak` | src/simple_tools/p4a_util.py:426-431 | two reads of one line each are collected without the break between them |
| `LineSplitter.CollectedLetters` | src/simple_tools/p4a_util.py:426-431 | whatever the cuts, the collected text has the letters of the complete lines in order |
| `LineSplitter.LinesContinue` | src/simple_tools/p4a_util.py:425-428 | the lines of a text and of what follows it are those of the first part and of its tail with the rest |
| `LineSplitter.JoinOfSplit` | src/simple_tools/p4a_util.py:426-429 | splitting gives pieces without line breaks that join to the text |

## Left out

- GaussSimplify's second matrix (lines 396 to 453), the failure of its first malloc, and PolyhedronLTQ and the other drivers: they rest on library code outside the model.
- Ludcmp.Solve, Factorization.Lud99, Factorization.LuRightLooking: require that the pivots they divide by are not zero (all for the solver, all but the last for the two nests); `PivotsNonzeroIffFactorable` says which matrices have them.
- OrthonormalFactors.ModifiedGramSchmidt: requires nonzero norms for the same reason; `NormsNonzeroIffIndependent` says which matrices have them. The root is a parameter, exact.
- GaussUnique.SameSolutionsIffSameForm: solutions are integer vectors; for a homogeneous system every rational solution is a multiple of one.
- IntegerPoints.PolyhedronNotEmpty: what Polyhedron_Scan returns is a parameter, so is the shape of its levels.
- ScmpProgress.NeverStuck: allocations have positive sizes, copies and releases are of the size allocated, each buffer is copied once between its allocation and its release, and has one producer and one consumer. A buffer of size zero, which the run-time allocates again without a release, is in `Scmp.ResizingIsSafe`.
- Scmp.ResizingIsSafe: the producer's requests alone, every wait granted; the clones together are in `ScmpRuns`.
- Scmp.Task: the two-dimensional server copies move the same bytes as `BoxStubs`; a failed allocation and SESAM's own errors do not occur.
- BoxCopy.CopyToAccel, BoxCopy.CopyFromAccel: the one-dimensional transfer is a loop over bytes, as in the stubs; host and accelerator memory are different arrays.
- BoxContiguous.WrittenRightIff: nonempty boxes; an empty box copies nothing in all versions.
- The three-dimensional copy stubs and the generated ones: their strides or directions are not those of the run-time.
- Launch.Create2d: fixed-width overflow and the rounding of floats; `ceil(sqrt(tpb))` is the least s with s*s >= tpb. The OpenCL one- and three-dimensional macros add nothing to it.
- Jacobi.GridKernel1: the guard is the bounds of the sequential nest; jacobi.cu admits index SIZE-1 as well and then reads past the array, see `WrittenGuardIsInside`.
- AccelMap.Runtime.AccelMalloc: an allocator that never fails; its areas overlap no live one. Kernels that write the areas between two calls.
- LineSplitter.Runner.ReadOutput: the standard error's half is the same code; I/O errors other than an empty pipe, and the spinner.
- Worklist.DirSubdirTest: what is tested in a directory, log files, and processes that die; which subdirectories a directory has is given.
- The FFT and Laplacian steps, graphics and file reading of Stars-PM.
- CUDA, OpenCL and SESAM themselves, timing, debugging output, option parsing, builds and the rewriting of sources.
