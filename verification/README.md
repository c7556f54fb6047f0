# mart-common: a verified model

This project models the parts of mart-common that are hardest to get right, and proves what
they promise:

- **Protocols between threads** (`Channel`, `TrippleBuffer`, `FastMutex`, `RefCount`, `StoragePool`).
  Every action on an atomic, a mutex or a condition variable, and every access to the data they
  guard, is one step of a transition system with any number of threads. Each module states an
  inductive invariant that the code does not, and derives from it what callers may rely on in every
  state of every run. Classes whose members are changed in place carry the state of the protocol as a
  ghost, and each call is proved to be a run of it.
- **Tracked pointers on the heap** (`Links`, `RcPtr`). Links and their targets, and pointers and the
  counters they keep, are objects that refer to each other and are changed in place. The sets `links`,
  `targets`, `ptrs` and `slots` that the methods take are ghosts: everything that exists.
- **Linear algebra over the reals** (`RealSum`, `Matrix`, `Determinant`, `Inverse`, `MatrixExp`), for
  every size of matrix.
- **Strings and numbers** (`Split`, `ToIntegral`, `Bits`, `ByteSwap`, `Ipv4`, `Narrow`), for all inputs
  and all widths, with the wrap-around of the machine types written out.
- **A ring buffer** (`CircularBuffer`) as a queue.

Loops and in-place updates of the source are methods that are proved against a specification
function, about which the lemmas then speak.

Where the code does not meet what its documentation promises, the code was followed, and the exact
condition under which it does is proved:

- `split_full` with `Split::After` should return the whole string if the delimiter does not occur
  (im_str.hpp, lines 240-241), but returns one empty string. With `Split::Before` it ends the program
  if the string starts with the delimiter, because `substr` throws inside a `noexcept` function.
- `to_integral` throws for the smallest value of a signed type, and reads a negative number as 0 if
  the type is unsigned.
- `to_integral_unsafe` is meant for numbers that are not too big for the type, but for `int` and wider
  signed types it overflows on the 48 largest of them, such as 2147483647: it adds the character
  before it subtracts `'0'`.
- The empty string is split into no piece, although it is what joining one empty piece gives.
- Copy assignment of a link into a target with a full table leaves a link that its target does not
  know; so do self-move assignments. Moving onto a target that has links, and `sever_all_links`, leave
  links whose target does not know them.
- Moving an `RcPtr` onto itself drops a reference that is still in use.
- A push onto N - 1 elements makes the ring buffer appear empty.

## Model

| member | source | states |
|---|---|---|
| Matrix.GetCfactor | include/mart-common/experimental/lin_alg/matrix.h:58-77 | the two copying loops produce M without row p and column q, entry by entry |
| Matrix.CopyRowWithout | include/mart-common/experimental/lin_alg/matrix.h:64-67 | the lagging target index copies all columns but q, in order |
| Matrix.CalcDet | include/mart-common/experimental/lin_alg/matrix.h:79-99 | the loop with its alternating sign computes the first-row expansion, for every size |
| Matrix.CalcAdj | include/mart-common/experimental/lin_alg/matrix.h:101-118 | entry (j, i) of the result is the signed minor at (i, j), also in the 1x1 case |
| Matrix.WriteCofactors | include/mart-common/experimental/lin_alg/matrix.h:109-114 | one round fills exactly column i with the cofactors of row i |
| Matrix.InnerProduct | include/mart-common/MartVec.h:378-386 | the accumulated vector is the sum of products in every component, for a vector of rows of any length |
| Matrix.DotProduct | include/mart-common/MartVec.h:378-386 | for scalars it is the sum of products |
| Matrix.MxMultiply | include/mart-common/MartVec.h:449-458 | the product of two matrices of any fitting sizes, by one inner product for each row |
| Matrix.MxMultiplyVector | include/mart-common/MartVec.h:449-458 | the product of a matrix with a vector of scalars is the product with the vector as a column |
| Matrix.MakeEye | include/mart-common/MartVec.h:1005-1013 | the given value on the diagonal and zeros elsewhere |
| Determinant.RowExpansion | include/mart-common/experimental/lin_alg/matrix.h:90-97 | expanding along any row gives what the code computes along the first |
| Determinant.FirstColumnExpansion | include/mart-common/experimental/lin_alg/matrix.h:90-97 | so does expanding along the first column |
| Determinant.EqualRowsZero | include/mart-common/experimental/lin_alg/matrix.h:79-99 | two equal rows make the determinant 0 |
| Determinant.DetTranspose | include/mart-common/experimental/lin_alg/matrix.h:79-99 | a matrix and its transpose have the same determinant |
| Determinant.RowTimesCofactors | include/mart-common/experimental/lin_alg/matrix.h:101-118 | a row times the cofactors of a row is the determinant for the same row and 0 for another |
| Determinant.AdjugateIdentity | include/mart-common/experimental/lin_alg/matrix.h:101-118 | M * adj(M) = det(M) * I for every real matrix of every size |
| Determinant.AdjugateIdentityLeft | include/mart-common/experimental/lin_alg/matrix.h:101-118 | adj(M) * M = det(M) * I |
| Determinant.AdjugateTranspose | include/mart-common/experimental/lin_alg/matrix.h:101-118 | the adjugate of the transpose is the transposed adjugate |
| Determinant.AdjugateOverDetIsInverse | include/mart-common/experimental/lin_alg/matrix.h:120-126 | adj / det is an inverse from both sides wherever the determinant is not 0 |
| Inverse.DetAddRow | include/mart-common/experimental/lin_alg/matrix.h:79-99 | adding a multiple of another row does not change the determinant |
| Inverse.DetProduct | include/mart-common/experimental/lin_alg/matrix.h:79-99 | the determinant of a product is the product of the determinants |
| Inverse.InvertibleHasDet | include/mart-common/experimental/lin_alg/matrix.h:120-126 | a matrix with a left or a right inverse has a determinant other than 0 |
| Inverse.InverseUnique | include/mart-common/experimental/lin_alg/matrix.h:120-126 | there is at most one inverse |
| Inverse.CalcInv | include/mart-common/experimental/lin_alg/matrix.h:120-126 | returns the one inverse, and nothing exactly if no inverse exists, which is exactly if the determinant is 0 |
| MatrixExp.MulAssoc | include/mart-common/MartVec.h:449-458 | matrix multiplication is associative |
| MatrixExp.PowAdd | include/mart-common/experimental/lin_alg/matrix.h:188-191 | powers of a matrix multiply by adding their exponents |
| MatrixExp.SquareRepeatedly | include/mart-common/experimental/lin_alg/matrix.h:188-191 | k squarings raise any matrix to the power 2^k |
| MatrixExp.ComputeInfNorm | include/mart-common/experimental/lin_alg/matrix.h:43-55 | the running maximum ends as the infinity norm |
| MatrixExp.MaxRowNormIsMax | include/mart-common/experimental/lin_alg/matrix.h:43-55 | the norm bounds every row sum of absolute values and is one of them, or 0 |
| MatrixExp.AbsIsDistance | include/mart-common/experimental/lin_alg/matrix.h:37-41 | the absolute value is the value or its negation, and not negative |
| MatrixExp.NormBoundsEntries | include/mart-common/experimental/lin_alg/matrix.h:43-55 | no entry of a matrix, whatever its sign, is farther from 0 than the norm |
| MatrixExp.InfNormScaled | include/mart-common/experimental/lin_alg/matrix.h:136-152 | the norm is homogeneous, so halving the scale halves the norm of the scaled matrix |
| MatrixExp.Log2Ceil | include/mart-common/experimental/lin_alg/matrix.h:136-149 | terminates with scale 2^-log and a scaled norm of at most 1, and no smaller log would do |
| MatrixExp.SquaringUndoesScaling | include/mart-common/experimental/lin_alg/matrix.h:151-193 | for any series with E(2A) = E(A) * E(A), scaling before and squaring after change nothing |
| MatrixExp.ScaleAndSquare | include/mart-common/experimental/lin_alg/matrix.h:151-193 | around any series, scaling and squaring use the least sufficient power of two, and with the doubling law the result is the series of the matrix itself |
| MatrixExp.BatchExtendsSum | include/mart-common/experimental/lin_alg/matrix.h:170-181 | adding up a batch of terms on its own and then adding it to the sum gives the longer partial sum |
| MatrixExp.InverseFactorialIsInverse | include/mart-common/experimental/lin_alg/matrix.h:161-176 | the coefficients that are multiplied up are exactly the inverses of the factorials |
| MatrixExp.PartialSumEntry | include/mart-common/experimental/lin_alg/matrix.h:159-186 | every entry of a partial sum is the sum of the entries of A^k divided by k!, for all k up to its last term |
| MatrixExp.SumBatch | include/mart-common/experimental/lin_alg/matrix.h:170-179 | a batch carries power and inverse factorial on to exactly its terms of the series, and never stops early |
| MatrixExp.PowerSeries | include/mart-common/experimental/lin_alg/matrix.h:159-186 | after any number of rounds the loop holds the partial sum of the exponential series with that many batches of terms |
| MatrixExp.CalcMatrixExp | include/mart-common/experimental/lin_alg/matrix.h:128-194 | for every number of rounds of the series loop, the partial sum of the exponential series of the scaled matrix is raised to the power 2^k, where k is the least with a scaled norm of at most 1 |
| TrippleBuffer.StepInv | include/mart-common/mt/TrippleBuffer.h:96-115 | every step keeps the invariant: the indices are a permutation, and the flag is set exactly while the shared slot is newer than the one being read |
| TrippleBuffer.NeverShareSlots | include/mart-common/mt/TrippleBuffer.h:56-73 | in every reachable state the three indices are a permutation of 0, 1, 2 |
| TrippleBuffer.NoTornRead | include/mart-common/mt/TrippleBuffer.h:82-115 | all words read since the last fetch belong to the one committed value that was fetched, however commits interleave |
| TrippleBuffer.FetchResultIsExact | include/mart-common/mt/TrippleBuffer.h:96-101 | at its load fetch_update sees new data exactly if the reader does not hold the latest committed value |
| TrippleBuffer.FetchGetsLatest | include/mart-common/mt/TrippleBuffer.h:102-106 | the exchange gives the value that is then the latest, unmodified and strictly newer, even if commits came in between |
| TrippleBuffer.VersionsAdvance | include/mart-common/mt/TrippleBuffer.h:96-107 | over any stretch of a run the version being read never goes back |
| TrippleBuffer.WrittenIsCommitted | include/mart-common/mt/TrippleBuffer.h:82-115 | in every run the last word written at a place before a commit is the word at that place of the committed value |
| TrippleBuffer.ReadsFetchedWord | include/mart-common/mt/TrippleBuffer.h:85-106 | in every run a read gives the word of the fetched value, as long as the consumer did not overwrite it |
| TrippleBuffer.EditStays | include/mart-common/mt/TrippleBuffer.h:85-85 | what the consumer writes into its read buffer is what it reads there until it fetches again |
| TrippleBuffer.Refines | include/mart-common/mt/TrippleBuffer.h:96-115 | every step is a step of an atomic register that stores values and fetches the latest |
| TrippleBuffer.Buffer.constructor | include/mart-common/mt/TrippleBuffer.h:70-80 | the members start in the initial state of the protocol |
| TrippleBuffer.Buffer.Write | include/mart-common/mt/TrippleBuffer.h:82-82 | one word of the write slot is replaced, and the two other slots stay as they are; it is the producer's step of the protocol |
| TrippleBuffer.Buffer.Read | include/mart-common/mt/TrippleBuffer.h:85-85 | the read buffer gives words of the value that is held |
| TrippleBuffer.Buffer.Commit | include/mart-common/mt/TrippleBuffer.h:109-115 | the write slot becomes the latest committed value, by the two steps of the protocol |
| TrippleBuffer.Buffer.FetchUpdate | include/mart-common/mt/TrippleBuffer.h:96-107 | true exactly if something was committed since; then the latest value is held, and otherwise nothing changes |
| Channel.Members.Send | include/mart-common/experimental/mt/Channel.h:34-46 | the call is the protocol's lock, push, notify_one and unlock, it keeps the invariant and extends the log of sent items, and it wakes a receiver exactly if one is blocked |
| Channel.Members.TryReceive | include/mart-common/experimental/mt/Channel.h:48-60 | the call is a run of the protocol; it returns the oldest item that was sent and not removed, exactly if there is one, and neither throws nor uses up a cancellation |
| Channel.Members.TryReceiveFor | include/mart-common/experimental/mt/Channel.h:62-76 | the same with a timeout: the call is a run of the protocol that waits until the time is over exactly if there is neither an item nor a cancellation |
| Channel.Members.Receive | include/mart-common/experimental/mt/Channel.h:78-88 | the call is a run of the protocol; it throws exactly if a cancellation is pending, which is used up while no item is removed, and otherwise returns the oldest item not removed |
| Channel.Members.CancelRead | include/mart-common/experimental/mt/Channel.h:97-104 | the call is a run of the protocol, after which no thread is blocked, every thread that was is on its way back into the call it was in, and no item has been touched |
| Channel.Members.Clear | include/mart-common/experimental/mt/Channel.h:106-111 | the call is a run of the protocol, after which everything ever sent has been removed and a cancellation is still pending if it was |
| Channel.Members.Reset | include/mart-common/experimental/mt/Channel.h:113-120 | the call is a run of the protocol, after which everything ever sent has been removed and there is nothing to receive, not even a cancellation |
| Channel.StepInv | include/mart-common/experimental/mt/Channel.h:34-120 | every step of any thread keeps the invariant on the mutex, the calls, the wakeups and the history |
| Channel.WakeupStep | include/mart-common/experimental/mt/Channel.h:34-104 | while somebody is blocked, a notify_all is still to come, or the flag is clear and enough threads are on their way to take every item |
| Channel.NoLostWakeup | include/mart-common/experimental/mt/Channel.h:34-120 | if nobody holds the lock, is on the way back from a wakeup or owes a notify_all, a blocked receiver implies an empty queue and a clear flag |
| Channel.MutualExclusion | include/mart-common/experimental/mt/Channel.h:34-120 | only the thread that holds the mutex is inside a critical section |
| Channel.ReceiveNeverPopsEmpty | include/mart-common/experimental/mt/Channel.h:81-87 | after its wait receive finds an item or a cancellation |
| Channel.Conservation | include/mart-common/experimental/mt/Channel.h:34-120 | what was sent is always what was removed followed by what is queued, in this order |
| Channel.ThrowsBounded | include/mart-common/experimental/mt/Channel.h:82-102 | there are never more Canceled exceptions than calls of cancel_read, and a step that throws uses up the cancellation and removes no item |
| Channel.CallsMoveOn | include/mart-common/experimental/mt/Channel.h:34-120 | in every run every thread only moves as its call prescribes, whatever the other threads do |
| Channel.CallIsKept | include/mart-common/experimental/mt/Channel.h:34-120 | in every run a thread is in the call that it started until that call ends, through waiting and every kind of wakeup |
| Channel.ReceivesOnce | include/mart-common/experimental/mt/Channel.h:48-88 | in every run a receive ends after it has received exactly one item or thrown exactly once, the calls that try end after at most one of both, and other calls receive nothing |
| Channel.HolderGetsOn | include/mart-common/experimental/mt/Channel.h:34-120 | in every reachable state the thread that holds the mutex can go on, and each of its steps brings it closer to giving the mutex back |
| Channel.FreeMeansAllCanGoOn | include/mart-common/experimental/mt/Channel.h:34-120 | in every reachable state in which nobody holds the mutex, every thread inside a call can go on unless it waits for an item, so there is no deadlock |
| FastMutex.StepInv | include/mart-common/experimental/mt/FastMutex.h:39-97 | every step keeps the invariant: who owns the flag, who holds the inner mutex, and what the marker remembers |
| FastMutex.MutualExclusion | include/mart-common/experimental/mt/FastMutex.h:39-97 | at most one of any number of threads is between winning and clearing the flag |
| FastMutex.OneSpinner | include/mart-common/experimental/mt/FastMutex.h:74-97 | at most one thread spins |
| FastMutex.UnlockedByItsHolder | include/mart-common/experimental/mt/FastMutex.h:62-68 | the inner mutex is only unlocked by the thread that locked it |
| FastMutex.MarkerIsRaceFree | include/mart-common/experimental/mt/FastMutex.h:62-97 | the unsynchronised marker is only accessed by the owner of the flag |
| FastMutex.AssertionHolds | include/mart-common/experimental/mt/FastMutex.h:47-51 | the assertion at the end of lock never fails, and its test_and_set changes nothing |
| FastMutex.OwnerLeaves | include/mart-common/experimental/mt/FastMutex.h:62-71 | from every state that satisfies the invariant the owner alone can run until the flag is clear |
| FastMutex.CanAlwaysEnter | include/mart-common/experimental/mt/FastMutex.h:39-97 | from every reachable state every thread inside lock can still be scheduled into the critical section, so there is no deadlock |
| FastMutex.CallsEnd | include/mart-common/experimental/mt/FastMutex.h:39-97 | in every run every step of every thread leads where its code leads; a lock only ends in the critical section, and waits for the inner mutex only if the flag was taken |
| FastMutex.LockedWhenDone | include/mart-common/experimental/mt/FastMutex.h:39-52 | in every run a thread that was inside lock and is no more has gone straight from there into the critical section as the owner |
| FastMutex.Members.TryLock | include/mart-common/experimental/mt/FastMutex.h:54-60 | the call is a run of the protocol; it succeeds exactly if no thread owns the flag, and then the caller is the only one that does |
| FastMutex.Members.Lock | include/mart-common/experimental/mt/FastMutex.h:39-52 | where it need not wait the call is a run of the protocol that ends with the caller alone in the critical section, and its assertion holds |
| FastMutex.Members.Unlock | include/mart-common/experimental/mt/FastMutex.h:62-71 | the call is a run of the protocol; whoever is in the critical section leaves it, nobody owns the flag afterwards, and only an inner mutex of the caller's own is given up |
| RefCount.StepInv | im_str/include/im_str/detail/ref_cnt_buf.hpp:131-246 | every atomic step of copying, moving, assigning, swapping, destroying and splitting keeps the counters exact |
| RefCount.SplitStep | im_str/include/im_str/im_str.hpp:247-297 | the increment by the number that was computed before the loop keeps all counters exact |
| RefCount.DeficitIsSplitCount | im_str/include/im_str/im_str.hpp:247-297 | in every run exactly as many slices are uncounted when split_full counts them as it computed beforehand, and none is left afterwards |
| RefCount.NeverTouchesFreed | im_str/include/im_str/detail/ref_cnt_buf.hpp:227-244 | in no run is a freed buffer touched or freed again |
| RefCount.CountIsExact | im_str/include/im_str/detail/ref_cnt_buf.hpp:135-199 | at every step of any number of threads the counter is the number of handles, less those still to be counted or overwritten, plus the shares that running assignments took in advance |
| RefCount.FreedExactlyWhenNoShareIsLeft | im_str/include/im_str/detail/ref_cnt_buf.hpp:227-236 | at every step a buffer is freed, or its last user is right about to free it, if and only if no counted handle points to it and no running assignment has a share in it |
| RefCount.HandlesPointToLive | im_str/include/im_str/detail/ref_cnt_buf.hpp:131-199 | at every step a counted handle points to a live buffer with a counter of at least 1 |
| RefCount.CallTakesEffect | im_str/include/im_str/detail/ref_cnt_buf.hpp:131-199 | in every run, when a call has ended, its handles point where they should: copies share, moves leave their source empty, a swap exchanges, and slices point to the buffer of the string |
| RefCount.DestroyRemoves | im_str/include/im_str/detail/ref_cnt_buf.hpp:166-166 | in every run a destroyed handle is there until its share is given up, and gone at once afterwards |
| RefCount.OthersUnchanged | im_str/include/im_str/detail/ref_cnt_buf.hpp:131-199 | a step leaves all handles alone that are not the target of its call |
| RefCount.StepGetsOn | im_str/include/im_str/detail/ref_cnt_buf.hpp:131-246 | every step of a call brings it closer to its end, and the step of the last user frees its buffer and no other |
| RefCount.CallCanGoOn | im_str/include/im_str/detail/ref_cnt_buf.hpp:131-246 | in every reachable state every running call can take its next step |
| StoragePool.StepInv | include/mart-common/experimental/StoragePool.h:49-56 | every step of allocating, constructing, sharing, dropping and destroying keeps the invariant of every slot |
| StoragePool.CounterMeaning | include/mart-common/experimental/StoragePool.h:45-56 | -1 means no object and no reference, 0 that somebody constructs or destroys, and n > 0 a live object with n references |
| StoragePool.ExclusiveAccess | include/mart-common/experimental/StoragePool.h:69-91 | at most one thread constructs or destroys in a slot, and then there is no reference to it |
| StoragePool.OnePairPerObject | include/mart-common/experimental/StoragePool.h:50-56 | every object is constructed once and destroyed once, and no dead object is used |
| StoragePool.ClaimsOnlyFreeSlots | include/mart-common/experimental/StoragePool.h:123-139 | a slot is handed out only while it holds nothing and nobody works on it |
| StoragePool.CallsMoveOn | include/mart-common/experimental/StoragePool.h:50-139 | in every run every thread only moves as its call prescribes, and leaves the slot as that step should |
| StoragePool.ConstructEnds | include/mart-common/experimental/StoragePool.h:86-139 | in every run a construct returns a reference to a new object, or has found every single slot taken when it looked at it |
| StoragePool.ReferencesFollow | include/mart-common/experimental/StoragePool.h:45-56 | in every run references are copied, handed on and dropped with one count each, and the last one to be dropped destroys |
| StoragePool.CallCanGoOn | include/mart-common/experimental/StoragePool.h:69-139 | in every reachable state every running call can take its next step |
| RcPtr.Slot.RcDec | include/mart-common/experimental/StoragePool.h:50-75 | the last reference destroys the object and frees the slot, any other only counts down |
| RcPtr.Pointer.constructor | include/mart-common/experimental/RefCntPtr.h:84-88 | a pointer to an object keeps all counters equal to the numbers of pointers |
| RcPtr.Pointer.Copy | include/mart-common/experimental/RefCntPtr.h:91-95 | so does a copy, which points to the same slot |
| RcPtr.Pointer.Move | include/mart-common/experimental/RefCntPtr.h:96-99 | so does a move, which leaves its source empty |
| RcPtr.Pointer.CopyAssign | include/mart-common/experimental/RefCntPtr.h:101-108 | counters stay exact, also in self assignment, and the old object survives exactly if somebody else points to it |
| RcPtr.Pointer.MoveAssign | include/mart-common/experimental/RefCntPtr.h:110-115 | counters stay exact if and only if it is not a self-move of a non-empty pointer |
| RcPtr.Pointer.Reset | include/mart-common/experimental/RefCntPtr.h:116-116 | counters stay exact through the temporary, its move and its destruction |
| RcPtr.Pointer.Destroy | include/mart-common/experimental/RefCntPtr.h:117-141 | counters stay exact, and the object survives exactly if another pointer refers to it |
| RcPtr.UsersUpdate | include/mart-common/experimental/RefCntPtr.h:101-115 | redirecting one pointer changes the number of users of the old and the new slot by one each |
| Links.InTableIffPointing | include/mart-common/experimental/link.h:39-55 | a link is in a target's table if and only if it exists and points to that target |
| Links.LinkTarget.constructor | include/mart-common/experimental/link.h:153-166 | a new target has an empty table of its own; copying a target does the same |
| Links.LinkTarget.UpdateBackRef | include/mart-common/experimental/link.h:80-90 | the first entry equal to the old address, and no other, becomes the new one, if there is one |
| Links.LinkTarget.AddBackRef | include/mart-common/experimental/link.h:100-110 | the first free entry is used; it fails exactly if the table is full |
| Links.LinkTarget.RemoveBackRef | include/mart-common/experimental/link.h:112-122 | the first entry of the link is freed, if there is one |
| Links.LinkTarget.Retarget | include/mart-common/experimental/link.h:62-78 | exactly the links in the table get the new target |
| Links.LinkTarget.Move | include/mart-common/experimental/link.h:168-175 | the new target takes over the table and all links of the old one, which keeps none |
| Links.LinkTarget.MoveAssign | include/mart-common/experimental/link.h:177-184 | the two-way relation survives if and only if the assigned target had no links of its own |
| Links.LinkTarget.Destroy | include/mart-common/experimental/link.h:69-74 | all its links point nowhere afterwards, and the others are untouched |
| Links.LinkTarget.SeverAllLinks | include/mart-common/experimental/link.h:93-98 | the two-way relation survives if and only if there was nothing to sever |
| Links.Link.constructor | include/mart-common/experimental/link.h:42-42 | a new link is unconnected and in no table |
| Links.Link.Copy | include/mart-common/experimental/link.h:131-136 | the copy is connected exactly if the target has a free entry; the relation is kept either way |
| Links.Link.Move | include/mart-common/experimental/link.h:125-129 | the new link takes over the entry of the old one, which ends unconnected |
| Links.Link.CopyAssign | include/mart-common/experimental/link.h:145-151 | the relation is kept if and only if the source is unconnected or its target has room once this link has left its old one |
| Links.Link.MoveAssign | include/mart-common/experimental/link.h:138-144 | the relation is kept if and only if it is not a self-move of a connected link |
| Links.Link.Connect | include/mart-common/experimental/link.h:196-205 | succeeds exactly if fewer links than its table has entries point to the target, even if this link is one of them; otherwise nothing changes |
| Links.Link.Disconnect | include/mart-common/experimental/link.h:207-216 | leaves the link unconnected, and says whether it was connected |
| Links.LinkMayDieIffUnconnected | include/mart-common/experimental/link.h:39-49 | as links have no destructor, the relation survives the end of a link if and only if it is unconnected |
| Links.RoomIffBelowCapacity | include/mart-common/experimental/link.h:100-110 | a table has a free entry if and only if fewer links than it has entries point to its target |
| Links.CopyAssigned | include/mart-common/experimental/link.h:145-151 | the exact condition for copy assignment, on the tables themselves |
| Links.MoveAssignedTarget | include/mart-common/experimental/link.h:177-184 | the exact condition for moving onto a target, on the tables themselves |
| Links.Swap | include/mart-common/experimental/link.h:169-184 | std::swap of two targets, by a move construction and two move assignments, exchanges their tables and all their links |
| Split.Find | im_str/include/im_str/im_str.hpp:274-274 | the first occurrence from the position on, or npos if there is none |
| Split.SplitFull | im_str/include/im_str/im_str.hpp:243-300 | with all its wrapping arithmetic the loop makes the pieces of the string, except that After without a delimiter makes one empty piece, and Before with a leading delimiter ends the program |
| Split.SliceToEnd | im_str/include/im_str/im_str.hpp:276-282 | a slice up to npos is the rest of the string, unless the sum wraps to 0 |
| Split.PiecesLength | im_str/include/im_str/im_str.hpp:247-249 | one piece more than there are delimiters to cut at |
| Split.NumberOfPieces | im_str/include/im_str/im_str.hpp:247-249 | the array is one too large exactly if the string is split before a leading delimiter |
| Split.DropRoundTrip | im_str/include/im_str/im_str.hpp:229-249 | the dropped pieces of any string have no delimiter and join to the string; of a non-empty one there is one more than delimiters |
| Split.SplitUndoesJoin | im_str/include/im_str/im_str.hpp:229-249 | splitting what was joined from any pieces without the delimiter gives these pieces back, if and only if they are not a single empty piece |
| Split.AfterConcatIffDelimiter | im_str/include/im_str/im_str.hpp:237-300 | the After pieces concatenate to the string if and only if it is empty or the delimiter occurs |
| Split.BeforeConcatUnlessLeadingDelimiter | im_str/include/im_str/im_str.hpp:237-300 | Before ends the program if and only if the string starts with the delimiter; otherwise its pieces concatenate to the string |
| Split.AfterPiecesEndAtDelimiter | im_str/include/im_str/im_str.hpp:168-176 | every piece but the last ends at its only delimiter, and the last has none |
| Split.BeforePiecesStartAtDelimiter | im_str/include/im_str/im_str.hpp:168-176 | every piece but the first starts at its only delimiter |
| Split.SplitAtInside | im_str/include/im_str/im_str.hpp:193-199 | inside the string the policy decides on which side the character goes, or that it is dropped |
| Split.SplitOnFirstIsFirstPiece | im_str/include/im_str/im_str.hpp:216-220 | wherever split_full makes pieces, the result is its first piece and all others put together again, if and only if it is not After with a delimiter that does not occur |
| Split.SplitOnFirstElsewhere | im_str/include/im_str/im_str.hpp:216-220 | where split_full ends the program, everything is in the second part; the empty string gives two empty parts |
| Split.SplitOnLastIsLastPiece | im_str/include/im_str/im_str.hpp:223-227 | for every policy, wherever split_full makes pieces, the result is all others put together in front of its last piece, if and only if the delimiter occurs; without it the whole string comes first |
| Split.SplitOnLastElsewhere | im_str/include/im_str/im_str.hpp:223-227 | where split_full ends the program, the string is split before its last delimiter; the empty string gives two empty parts |
| Split.AddTo | im_str/include/im_str/im_str.hpp:548-551 | copies the text to its place in the buffer and changes nothing else |
| Split.RangeHelper | im_str/include/im_str/im_str.hpp:571-588 | up to the largest int, which the allocation asserts, the buffer holds exactly the concatenation of all parts, and the terminator written before them is still in place |
| ToIntegral.Core | include/mart-common/StringView.h:111-134 | the value of the longest prefix of digits if it fits, and an exception otherwise, for every type with a largest value of at least 9 |
| ToIntegral.ParseIntegral | include/mart-common/StringView.h:137-166 | the sign is read only for signed types, a plus for all, and the empty string is 0 |
| ToIntegral.LongestPrefix | include/mart-common/StringView.h:115-117 | the loop stops at the first character that is no digit |
| ToIntegral.ParseInvertsPrint | include/mart-common/StringView.h:150-166 | parsing inverts decimal printing exactly for -max <= v <= max, whatever follows the number |
| ToIntegral.ParseSkipsPlus | include/mart-common/StringView.h:137-159 | a leading plus is skipped for every type, and no second sign is read; the empty string is 0 |
| ToIntegral.ToIntegralUnsafe | include/mart-common/StringView.h:170-178 | the value modulo the range of the type, for every string and every type whose arithmetic cannot overflow; a signed overflow is reported as undefined |
| ToIntegral.UncheckedSigned | include/mart-common/StringView.h:170-178 | for signed types as wide as int the result on digits is the value exactly if the type has room for 48 more, and otherwise undefined |
| ToIntegral.UncheckedAgrees | include/mart-common/StringView.h:161-178 | on digits the checked version returns exactly the values that fit, and the unchecked one agrees if and only if the value fits, or for signed types as wide as int, if it is at most the largest value less 48 |
| ToIntegral.UncheckedFailsOnLargestInt | include/mart-common/StringView.h:170-178 | on 2147483647 the checked version returns the value for int, and the unchecked one overflows |
| Bits.LowAndHigh | include/mart-netlib/basic_types.hpp:72-90 | shifting right and masking give quotient and remainder of a division by 2^k |
| Bits.AndLowMask | include/mart-netlib/basic_types.hpp:72-76 | a mask of k ones keeps the remainder modulo 2^k |
| ByteSwap.MaskValues | include/mart-netlib/basic_types.hpp:72-81 | the two masks are ones in the lower and in the upper half of the bytes, in every word that is wide enough |
| ByteSwap.MbswapReverses | include/mart-netlib/basic_types.hpp:83-96 | for 2^k bytes in a word of any width the recursion reverses the lowest bytes of any argument, and the masks of the callers suffice for the unmasked case of one byte |
| ByteSwap.OneByteNeedsItsArgumentMasked | include/mart-netlib/basic_types.hpp:93-96 | by itself the case of one byte is right if and only if nothing lies above the byte |
| ByteSwap.BswapTwice | include/mart-netlib/basic_types.hpp:100-104 | the byte swap is its own inverse, for every width |
| ByteSwap.HostUndoesNet | include/mart-netlib/basic_types.hpp:106-127 | host and network order convert into each other without loss on either kind of machine |
| ByteSwap.NetOrderIsBigEndian | include/mart-netlib/basic_types.hpp:106-127 | in memory a number in network order starts with its most significant byte on either kind of machine |
| Ipv4.HasInvalidChar | include/mart-netlib/detail/ip_detail.hpp:23-30 | true exactly if some character is neither a digit nor a dot |
| Ipv4.HasWrongBlockCount | include/mart-netlib/detail/ip_detail.hpp:32-40 | true exactly if there are not three dots |
| Ipv4.IsMalformed | include/mart-netlib/detail/ip_detail.hpp:17-45 | false exactly for 7 to 15 digits and dots with three dots |
| Ipv4.SplitBlocksUnchecked | include/mart-netlib/detail/ip_detail.hpp:72-85 | without any check it stays inside the array and finds the four blocks between the dots |
| Ipv4.ParseBlock | include/mart-netlib/detail/ip_detail.hpp:47-53 | accepts at most three digits of value at most 255, an empty block as 0, and computes without wrapping |
| Ipv4.PackStep | include/mart-netlib/detail/ip_detail.hpp:94-97 | shifting the accumulator by eight bits and or-ing a byte appends it as the least significant one, without losing any of up to four |
| Ipv4.ParseAddress | include/mart-netlib/detail/ip_detail.hpp:87-100 | accepts exactly the well-formed strings whose blocks all fit, and returns their values packed with the first as most significant byte |
| Ipv4.AddressRoundTrip | include/mart-netlib/detail/ip_detail.hpp:87-100 | parsing the canonical dotted decimal of any 32-bit address gives the address |
| Ipv4.AcceptsJoined | include/mart-netlib/detail/ip_detail.hpp:17-100 | any digits with dots in between are accepted if and only if there are four numbers of at most three digits and 255, and at least seven characters in all |
| Ipv4.ShortIsRejected | include/mart-netlib/detail/ip_detail.hpp:17-21 | nothing shorter than seven characters is accepted |
| Ipv4.BlocksInMemory | include/mart-netlib/ip.hpp:43-95 | in memory an accepted address consists of the values of its blocks from left to right |
| Ipv4.HasInvalidPortChar | include/mart-netlib/detail/ip_detail.hpp:110-117 | true exactly if some character is no digit |
| Ipv4.TryParsePort | include/mart-netlib/ip.hpp:131-140 | accepts exactly one to six digits with a 16-bit value |
| Ipv4.EndpointOf | include/mart-netlib/ip.hpp:227-238 | an address, a colon and a port make an endpoint if and only if both are accepted, and it has their values |
| Ipv4.EndpointNeedsColon | include/mart-netlib/ip.hpp:227-238 | nothing without a colon is an endpoint |
| Ipv4.ConstructorAgrees | include/mart-netlib/ip.hpp:190-209 | the constructor throws exactly if try_parse finds nothing, and otherwise makes the same endpoint |
| Ipv4.ConstructorThrows | include/mart-netlib/ip.hpp:190-209 | exactly which exception is thrown: for a missing port, otherwise for a bad address, otherwise for a bad port |
| Ipv4.EndpointRoundTrip | include/mart-netlib/ip.hpp:227-238 | parsing the canonical form of any address and port gives both back |
| Ipv4.SplitAtFirst | include/mart-common/StringView.h:61-70 | splitting at a character gives what is before and after its first occurrence |
| Ipv4.SplitWithout | include/mart-common/StringView.h:61-70 | without the character everything comes first and nothing second |
| CircularBuffer.Ring.constructor | include/mart-common/experimental/circular_buffer.h:36-44 | an empty queue |
| CircularBuffer.Ring.PushBack | include/mart-common/experimental/circular_buffer.h:46-56 | appends to a queue of fewer than N - 1 elements, and makes a fuller one appear empty |
| CircularBuffer.Ring.PopFront | include/mart-common/experimental/circular_buffer.h:58-69 | takes the oldest element; an empty ring appears full afterwards |
| CircularBuffer.Ring.At | include/mart-common/experimental/circular_buffer.h:71-72 | an index inside the queue gives its element, any other one the element of the ring that it wraps to, and a negative remainder an access outside the array |
| CircularBuffer.Ring.SetAt | include/mart-common/experimental/circular_buffer.h:71-71 | writing through the reference changes that element and no other, and nothing in the queue if the wrapped index is outside of it |
| CircularBuffer.Ring.Size | include/mart-common/experimental/circular_buffer.h:74-80 | the number of elements from the read to the write index, less than N |
| CircularBuffer.Ring.Empty | include/mart-common/experimental/circular_buffer.h:82-82 | true exactly if the queue is empty |
| CircularBuffer.Replay | include/mart-common/experimental/circular_buffer.h:30-83 | in every run of operations that a queue of N - 1 elements allows, the ring gives the same outputs |
| Narrow.NarrowCast | include/mart-common/utils.h:33-39 | the result of a cast always fits the target type |
| Narrow.CastOfFitting | include/mart-common/utils.h:33-39 | a value that fits is not changed by a cast |
| Narrow.NarrowIsExact | include/mart-common/utils.h:44-83 | for any two widths and signednesses exactly the representable values are returned, unchanged, and all others throw |

## Left out

- Sockets, the port layer, the address resolution and the tcp, udp and unix classes: calls of the operating system.
- Logging, sinks, formatters, clocks, timers and random numbers: input, output and time.
- Wrappers of standard algorithms, enumeration macros, ArrayView, Optional, DynArray and TypePunningUnion: they would only add easy members.
- Floating-point rounding: the matrices are over the reals.
- MatrixExp.CalcMatrixExp: the stopping rule of the series is a matter of rounding, so the number of rounds after which it stops is a parameter; the result is proved for every such number.
- Weak memory orders: atomics are sequentially consistent.
- Fairness and liveness of mutexes, condition variables and spinning; the lack of deadlock is stated as the possibility to go on.
- FastMutex.Members.Lock: where lock has to wait it only ends if another thread acts, so that case is part of the transition system alone.
- Channel.Members.Receive: where receive has to wait it only ends if another thread acts, so that case is part of the transition system alone.
- Channel.Members.TryReceive: a try_lock that fails is part of the transition system alone.
- The `operator<<` of Channel and its helper class for receiving only call the modelled members.
- Constructors of pool objects that throw.
- StoragePool.StepInv: how the special members of RcPtr use the counter is modelled step by step in RcPtr only, without interleaving; here a reference is a share that is duplicated, handed on and dropped.
- RefCount.StepInv: a self-move of a non-empty handle is excluded, as its assertion demands; what it would do is what RcPtr.Pointer.MoveAssign says.
- The contents of the strings that RefCount splits: there split_full makes any positive number of slices; how many it is, and what they hold, is the subject of Split.
- Allocators and the byte layout of the string header: a buffer is a counter and whether it was freed.
- Exceptions inside split_full, where running out of memory ends the program.
- The assertions of link.h and of split_at: the model is the build in which they are switched off, so that the failing cases are modelled too.
- Split.RangeHelper: what happens above the largest int, where the assertion of the allocation fails, and a total size beyond 64 bits.
- The overflow of int in the index arithmetic of a ring buffer with more than 2^30 elements.
- ToIntegral.ToIntegralUnsafe: characters outside ASCII, whose numbers are negative where char is signed.
- `asString` of an address is replaced by a printing function for the canonical form.
