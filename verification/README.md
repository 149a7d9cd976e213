# A verified model of the PRET processor simulator

The PRET simulator runs six hardware threads of a SPARC V8 subset through one pipeline, with
deadline timers and a memory that serves the threads in turn. The repository also holds C programs
written for that processor. This project models the parts whose correctness is not evident from
any one function, and proves what they are for:

- **DES in three CBC modes** (`DesCipher`, `DesKeySchedule`, `DesStandard`, `CbcChaining`, `DesCbc`):
  decryption restores what was encrypted, for every key, initializing vector, S-box table and
  division of the message into calls. Key schedule and cipher are those of FIPS 46-3 up to the
  contents of its tables, and the bytes of every call satisfy the chaining equations of section 6.2
  of NIST SP 800-38A.
- **The interleaved pipeline** (`Pipeline`): six latches and six threads run in one cyclic
  schedule and leave every thread, and every shared part, as whole instructions executed one after
  the other in round-robin order would.
- **SPARC semantics** (`Words`, `Alu`, `MultiplyStep`, `ExecuteStage`, `DelayedBranch`,
  `RegisterWindows`, `Psr`): condition codes, multiword arithmetic, the multiply step, delayed
  control transfer and overlapping windows, against The SPARC Architecture Manual Version 8.
- **Timing** (`Deadline`, `DeadlinePipeline`, `MemoryWheel`): the exact round in which a deadline
  instruction passes, in the model of one thread and in the pipelined core, and the exact cycles in
  which the memory wheel admits an access.
- **Concurrency protocols** (`CommandQueue`, `SyncBarrier`, `SyncMask`, `BitCount`, `Bits`): the double-buffered
  command queue under every interleaving of memory accesses, from the command requested to the
  command received, and the sync-table barrier.
- **Algorithms** (`Maze`, `BreadthFirst`, `PathSearch`, `MergeSort`, `Scratchpad`): the two maze
  searches on their own arrays, the in-place merge sort, and the scratchpad's slot table.

`Modular` and `Counting` hold facts about remainders and finite sets that several of these use.

Code that changes state is modelled by classes and methods whose contracts tie the new state to a
specification function; the theorems are lemmas about those functions and over whole runs.

`dafny verify dfyconfig.toml` checks everything.

## What does not hold as one might expect

Each of these is a property that fails for some inputs; the model keeps the code's behaviour and a
lemma gives the exact condition or a concrete case.

- A flush of the command queue can be lost: the receiver clears the flag after a test that saw no
  request, so a flush that sets the flag in between returns with nothing handed over
  (`CommandQueue.FlushOutcome`, `CommandQueue.FlushLost`).
- The multiply step sets C for a negative operand even when nothing is added
  (`MultiplyStep.StepFlags`); the product does not depend on it.
- Branch targets and link values are computed from the next program counter, so a taken branch or
  a CALL in a delay slot goes astray, and address zero cannot be a delayed target
  (`DelayedBranch.StepExact`, `DelayedBranch.LinkExact`, `DelayedBranch.CoupleGoesAstray`).
- A poll lets a thread pass a barrier twice if and only if it reuses the mask before the row is
  freed (`SyncBarrier.PassesTwiceExactly`, reached in `SyncBarrier.ReuseReached`).
- A deadline timer wraps, and then holds an instruction although its time is up, if and only if the
  instruction is more than 2^31 rounds late, modulo 2^32 (`Deadline.PassesAsLoadedExactly`). After
  loading -2^31 that is the very next round (`Deadline.MostNegativeHolds`). A deadline branch on one
  of the two most negative values is missed a whole wrap late (`Deadline.MissedExactly`).
- With a longest access that is a multiple of six cycles the wheel would never admit a fetch
  (`MemoryWheel.FetchAdmission`); the configured latency of 14 avoids this.
- A callee 31 windows down overwrites its caller's ins (`RegisterWindows.ThirtyOneIsTooDeep`).

## Model

| member | source | states |
|---|---|---|
| `DesCipher.ClosingUndoesOpening` | soft/rsaref/src/source/desc.c:579-645 | the closing bit exchanges undo the opening ones up to the swap of the halves, for every block |
| `DesCipher.OpeningUndoesClosing` | soft/rsaref/src/source/desc.c:579-645 | the opening exchanges undo the closing ones up to the swap |
| `DesCipher.RoundUndoesItself` | soft/rsaref/src/source/desc.c:599-624 | a Feistel round with its halves swapped before and after is its own inverse, for any round tables |
| `DesCipher.IterateInverse` | soft/rsaref/src/source/desc.c:599-624 | a chain of steps that each undo themselves is undone by the reversed chain, for any number of rounds |
| `DesCipher.CipherInverse` | soft/rsaref/src/source/desc.c:572-645 | the cipher run with its subkeys in reverse order restores the block, for any table contents and any number of key pairs |
| `DesCipher.RoundLoop` | soft/rsaref/src/source/desc.c:599-624 | the eight passes of two unrolled half-rounds equal sixteen Feistel rounds over the subkey pairs |
| `DesCipher.DESFunction` | soft/rsaref/src/source/desc.c:572-645 | the block is replaced in place by the cipher of its old contents under the stored key pairs |
| `DesKeySchedule.TotalRotations` | soft/rsaref/src/source/desc.c:29-31 | each entry of the table of total rotations is the rotation that FIPS 46-3 reaches by its one- and two-place rotations, for any halves and every round |
| `DesKeySchedule.HalvesReturn` | soft/rsaref/src/source/desc.c:29-31 | after round 16 both 28-bit halves are back where they started |
| `DesKeySchedule.WordOfBit` | soft/rsaref/src/source/desc.c:13-20 | every selected bit can be read back from the word built by or-ing the bit table, and no other bit is set |
| `DesKeySchedule.PermuteKey` | soft/rsaref/src/source/desc.c:506-510 | the loop over the first permutation table yields the 56 selected key bits |
| `DesKeySchedule.KeyBitPlace` | soft/rsaref/src/source/desc.c:506-510 | bit n of the key, counted from the left, is bit 7 - n % 8 of byte n / 8, for every key |
| `DesKeySchedule.RotateInto` | soft/rsaref/src/source/desc.c:515-528 | the two wrap-around loops rotate each half of the key left by the given total |
| `DesKeySchedule.LeftByOne` | soft/rsaref/src/source/desc.c:515-528 | a rotation by one place moves every bit of each 28-bit half one place to the left and the first bit to the end |
| `DesKeySchedule.SelectWords` | soft/rsaref/src/source/desc.c:529-534 | the selection loop builds the two 24-bit words of the chosen bits |
| `DesKeySchedule.RoundKey` | soft/rsaref/src/source/desc.c:511-535 | one round's words are those of the FIPS 46-3 halves after that many rounds |
| `DesKeySchedule.RoundKeyBits` | soft/rsaref/src/source/desc.c:511-535 | for every key and round, bit j of each 24-bit word is the bit of the rotated halves that the second permutation table names |
| `DesKeySchedule.CookKey` | soft/rsaref/src/source/desc.c:545-570 | stepping one index by 1 or by -3 stores every cooked pair in its place, forwards or backwards |
| `DesKeySchedule.StoredKeys` | soft/rsaref/src/source/desc.c:545-570 | an array filled that way holds the key pairs in order, or exactly reversed when decrypting |
| `DesKeySchedule.DESKey` | soft/rsaref/src/source/desc.c:497-543 | the stored subkeys are the FIPS 46-3 schedule of the key, or its reversal when decrypting |
| `DesStandard.OpeningIsInitialPermutation` | soft/rsaref/src/source/desc.c:579-597 | the opening exchanges are the initial permutation IP of FIPS 46-3, bit by bit, with both halves then turned by one place |
| `DesStandard.ClosingIsFinalPermutation` | soft/rsaref/src/source/desc.c:626-644 | the closing exchanges are the inverse of IP on halves turned in that way and exchanged |
| `DesStandard.OddBoxInputs` | soft/rsaref/src/source/desc.c:600-605 | the indices into SP1, SP3, SP5 and SP7 are the groups of the expansion E of FIPS 46-3 xored with the groups of the round key |
| `DesStandard.EvenBoxInputs` | soft/rsaref/src/source/desc.c:606-610 | the same for SP2, SP4, SP6 and SP8 |
| `DesStandard.RoundValueIsStandard` | soft/rsaref/src/source/desc.c:600-610 | a round value combines the eight boxes applied to exactly those groups, whatever the boxes hold, so cooked keys and turned halves compute the round function of FIPS 46-3 up to the tables |
| `DesStandard.CipherIsStandard` | soft/rsaref/src/source/desc.c:572-645 | the cipher under cooked keys is IP, then the rounds of FIPS 46-3 with the raw round keys, then the exchange of halves and the inverse of IP, for any box contents and any number of rounds |
| `CbcChaining.StreamInverse` | soft/rsaref/src/source/desc.c:239-268 | chaining with a block operation and then with its inverse restores every message, both carrying the same vector |
| `CbcChaining.StreamIsChained` | soft/rsaref/src/source/desc.c:239-268 | every block satisfies the equation of section 6.2 of NIST SP 800-38A: the cipher of plaintext xor the previous ciphertext block, or the inverse cipher of the ciphertext block xor the previous one, the vector standing before the first; the vector left is the last ciphertext block |
| `CbcChaining.ChainedIsStream` | soft/rsaref/src/source/desc.c:239-268 | conversely, blocks and a vector that satisfy these equations are the ones produced |
| `CbcChaining.StreamConcat` | soft/rsaref/src/source/desc.c:239-268 | processing two messages one after the other with the carried vector equals processing their concatenation |
| `CbcChaining.UpdatesAsOne` | soft/rsaref/src/source/desc.c:227-276 | any division into calls, refused calls included, has the effect of one call with the accepted bytes |
| `CbcChaining.UpdatesRoundTrip` | soft/rsaref/src/source/desc.c:227-276 | whatever one side produced in any division into calls, the other side turns back in any other division |
| `DesCbc.CodecFaithful` | soft/rsaref/src/source/desc.c:469-495 | packing and unpacking eight bytes are inverse to each other in both directions |
| `DesCbc.PackIsBigEndian` | soft/rsaref/src/source/desc.c:469-481 | the two words packed from eight bytes have the values of those bytes, most significant first |
| `DesCbc.UnderInverse` | soft/rsaref/src/source/desc.c:545-645 | a pass with the schedule of one direction undoes a pass with that of the other |
| `DesCbc.EdeInverse` | soft/rsaref/src/source/desc.c:383-459 | three passes with three keys in alternating directions are undone by the same passes in the opposite order and direction |
| `DesCbc.BackwardForward` | soft/rsaref/src/source/desc.c:318-371 | decrypting a block undoes encrypting it in each mode, whiteners included |
| `DesCbc.ForwardBackward` | soft/rsaref/src/source/desc.c:318-371 | encrypting a block undoes decrypting it in each mode |
| `DesCbc.ForwardEncrypts` | soft/rsaref/src/source/desc.c:245-256 | encrypting a block is DES under the key, DES between the two whiteners, or encryption, decryption and encryption under the three key parts in order, each key part being its own eight bytes |
| `DesCbc.StreamConverts` | soft/rsaref/src/source/desc.c:239-268 | the bytes of a call satisfy the chaining equations block by block, in both directions and in every mode, and the vector left is the last ciphertext block |
| `DesCbc.OneStep` | soft/rsaref/src/source/desc.c:330-363 | one step encrypts the plaintext block xor the vector and keeps the ciphertext block as the vector, in either direction |
| `DesCbc.CbcRoundTrip` | soft/rsaref/src/source/desc.c:200-495 | for every mode, key, vector and table contents, and however each side divides its bytes into calls, the receiver restores exactly the accepted bytes |
| `DesCbc.CbcContext.constructor` | soft/rsaref/src/source/desc.c:200-221 | each initialization leaves subkeys scheduled for its key part and direction, both copies of the vector and the whiteners |
| `DesCbc.CbcContext.ProcessBlock` | soft/rsaref/src/source/desc.c:330-363 | encrypting, the block left is the mode's encryption of input xor the old vector and is the new vector; decrypting, the input is the encryption of the block left xor the old vector and is the new vector |
| `DesCbc.CbcContext.UpdateBlocks` | soft/rsaref/src/source/desc.c:239-268 | the loop leaves bytes that satisfy the chaining equations of section 6.2 of NIST SP 800-38A and the last ciphertext block as the vector, even when output and input are the same array, and nothing beyond them changes |
| `DesCbc.CbcContext.Update` | soft/rsaref/src/source/desc.c:227-276 | a length that is no multiple of eight is refused and changes nothing; otherwise exactly those bytes are converted as the chaining equations say, with the mode's encryption under the context's key |
| `DesCbc.CbcContext.Restart` | soft/rsaref/src/source/desc.c:278-284 | the vector is again the original one |
| `DesCbc.ThereAndBack` | soft/rsaref/src/source/desc.c:200-495 | contexts of opposite direction applied in turn to one buffer leave it unchanged, in every mode and for every length |
| `Pipeline.SixDistinctThreads` | src/core/core.cpp:172-184 | from the sixth cycle on the six latches hold six different threads |
| `Pipeline.CommittedState` | src/core/core.cpp:172-184 | an instruction commits six cycles after it enters the pool, its thread is then as atomic execution leaves it, and the thread's next fetch comes one cycle later |
| `Pipeline.ThreadAdvances` | src/core/core.cpp:172-184 | a cycle takes each thread from its expected state to the next expected state by the one stage it is in |
| `Pipeline.WholeInstruction` | src/core/core.cpp:172-184 | an instruction executed as a whole is fetch, decode, register access, execute, memory and commit applied one after the other to the thread, each in its own cycle and with its own shared part, and nothing else changes |
| `Pipeline.StageEffects` | src/core/core.cpp:172-184 | in every cycle each of the six stages is applied to the expected state of the thread in its latch and to the shared part as atomic execution has it |
| `Pipeline.FetchingAdvances` | src/core/core.cpp:181 | the part shared by fetches runs ahead as if instructions were executed atomically |
| `Pipeline.MemoryAdvances` | src/core/core.cpp:177 | the part shared by memory accesses lags by the pipeline's depth and is otherwise that of atomic execution |
| `Pipeline.CommitAdvances` | src/core/core.cpp:174 | the part shared by commits is that of atomic execution of the committed instructions |
| `Pipeline.DrainedState` | src/core/core.cpp:172-184 | completing the instructions in flight after n cycles gives the atomic execution of n instructions, for every thread |
| `Pipeline.Isolation` | src/core/core.cpp:172-184 | with thread-local stages a thread's state in every cycle is independent of the other threads and the shared parts |
| `Pipeline.Core.Behavior` | src/core/core.cpp:172-184 | a cycle applies each of the six stages to the thread in its latch and to its shared part, moves the latches on by one and takes the next thread from the pool; it keeps latches, threads, shared parts and counters where round-robin atomic execution puts them |
| `Pipeline.Core.constructor` | src/core/hw_thread_controller.cpp:83-103 | the empty pipeline satisfies the refinement |
| `Alu.AddFlags` | src/core/execute.cpp:92-99 | after an addition with carry, C is the carry out, V is signed overflow and N xor V the sign of the exact sum |
| `Alu.SubFlags` | src/core/execute.cpp:106-110 | after a subtraction with borrow, C is the borrow, V is signed overflow and N xor V the sign of the exact difference |
| `Alu.FlagsAdded` | src/core/execute.cpp:245-272 | flags are only ever added to those of the instruction, and an operation other than addition, subtraction and multiply step sets N and Z by its result and neither V nor C |
| `Alu.BranchAfterCompare` | src/core/except.cpp:49-98 | after comparing two words every branch condition is taken exactly when the signed or unsigned relation it names holds |
| `Alu.AddWordsExact` | src/core/execute.cpp:92-99 | ADDCC followed by ADDXCC over any number of words is exact multiword addition with C as the carry out |
| `Alu.SubWordsExact` | src/core/execute.cpp:106-110 | SUBCC followed by SUBXCC is exact multiword subtraction with C as the borrow |
| `Alu.SubUndoesAdd` | src/core/execute.cpp:92-110 | multiword subtraction restores the operand of a multiword addition, with the same carry |
| `MultiplyStep.StepSum` | src/core/execute.cpp:169-219 | one step halves the 33-bit partial sum carried by N xor V and the accumulator, adds the multiplicand if the low bit of Y is set, and shifts the lost bit into Y |
| `MultiplyStep.StepFlags` | src/core/execute.cpp:245-272 | N, Z and V describe the addition performed; C does exactly when the low bit of Y is set or the operand is not negative |
| `MultiplyStep.ThirtyTwoSteps` | src/core/execute.cpp:169-219 | 32 steps and one with a zero operand leave the exact 64-bit product of the signed multiplicand and the unsigned Y |
| `ExecuteStage.HwThread.ShiftRightLogical` | src/core/execute.cpp:132-146 | the one-place-at-a-time loop computes the unsigned quotient by a power of two for every word and shift count |
| `ExecuteStage.HwThread.MultiplyStepOperation` | src/core/execute.cpp:169-218 | result, shifted operand and Y are those of the step whose product theorem is above |
| `ExecuteStage.HwThread.PerformAluOperations` | src/core/execute.cpp:84-242 | for every operation of the switch the stage leaves the result, operand and Y that the operation means, condition codes from them if they are written, and everything else unchanged |
| `ExecuteStage.BitwiseBits` | src/core/execute.cpp:111-128 | bit by bit, AND, OR, XOR, ANDN, XNOR and ORN give the connective they name, for all words |
| `ExecuteStage.ExecutedMeans` | src/core/execute.cpp:84-219 | addition, subtraction and left shift are exact modulo 2^32, the right shifts floor the unsigned or signed quotient by the power of two, SETHI fills the upper 22 bits, the deadline form passes its operand, the multiply step is the one above, and operand and Y otherwise stay |
| `ExecuteStage.HwThread.Operate` | src/core/execute.cpp:84-219 | the switch with its loop and its second addition of the carry has exactly that effect |
| `Psr.ReadBack` | src/core/special_reg.cpp:41-81 | writing and reading the register keeps every bit but the six reserved ones |
| `Psr.WriteBack` | src/core/special_reg.cpp:41-81 | reading and writing back keeps every field |
| `Psr.Layout` | src/core/special_reg.cpp:41-65 | each field is read from the bits of its place in the PSR |
| `Psr.SpecialReg.SetPsr` | src/core/special_reg.cpp:41-65 | afterwards every field fits its place, and the register reads back as the word written without its six reserved bits |
| `Psr.SpecialReg.GetPsr` | src/core/special_reg.cpp:67-81 | the register read splits back into the fields and has no reserved bit set |
| `Psr.SpecialReg.GetCarryBit` | src/core/special_reg.cpp:36-39 | the carry read through the whole register is bit 0 of the condition codes |
| `DelayedBranch.ExceptStage.IncPc` | src/core/except.cpp:383-427 | program counter and branch slot are those of the step function that `StepExact` and `AstrayBy` compare with the architecture, condition codes and link value are updated, and a double-word instruction in progress leaves a filled slot alone |
| `DelayedBranch.StepExact` | src/core/except.cpp:37-98 | the (pc, slot) pair moves as the architecture's (PC, nPC) if and only if no taken relative transfer sits in a delay slot and no delayed target is zero |
| `DelayedBranch.LinkExact` | src/core/except.cpp:424-426 | the link value is the address of the CALL or JMPL if and only if it is outside a delay slot |
| `DelayedBranch.OrdinaryTracks` | src/core/except.cpp:383-427 | code without relative transfers in delay slots and without zero targets is always tracked |
| `DelayedBranch.CoupleGoesAstray` | src/core/except.cpp:407-413 | a branch in the delay slot of a jump lands elsewhere than the architecture says |
| `DelayedBranch.AstrayBy` | src/core/except.cpp:407-426 | inside and outside delay slots a taken relative transfer lands, and a link is left, as far from the architecture's address as the instruction is displaced from its predecessor; a jump always goes to its target |
| `DelayedBranch.RunRefines` | src/core/hw_thread.cpp:151-157 | over every run of such code the simulator's data and pair are the architecture's data and (PC, nPC), reading an empty slot as pc + 4 |
| `DelayedBranch.OrdinaryRunRefines` | src/core/except.cpp:383-427 | a whole run of ordinary code has the data, link values included, and the (PC, nPC) of the architecture |
| `DelayedBranch.RunDeparts` | src/core/except.cpp:383-427 | the first instruction outside the condition is the first after which the two runs differ |
| `RegisterWindows.SharedCells` | src/core/register_file.cpp:60-80 | two registers share a cell exactly when they are the same or an out and the matching in of the window a SAVE enters |
| `RegisterWindows.GetAfterSet` | src/core/register_file.cpp:60-80 | a write shows in the registers that share its cell and nowhere else |
| `RegisterWindows.RegisterFile.GetReg` | src/core/register_file.cpp:60-69 | the value read is that of the register's cell |
| `RegisterWindows.RegisterFile.SetReg` | src/core/register_file.cpp:71-80 | one cell of one array changes |
| `RegisterWindows.WindowMoves` | src/core/regacc.cpp:79-81 | SAVE and RESTORE move the pointer to the callee's window and back, through the unsigned field |
| `RegisterWindows.WriteReaches` | src/core/register_file.cpp:71-80 | exactly which register writes at which nesting depth reach the caller's locals and ins, for every depth |
| `RegisterWindows.CallerKeepsWindow` | src/core/register_file.cpp:60-80 | over any sequence of nested calls up to thirty deep the caller's locals and ins keep their values and the pointer tracks the depth |
| `RegisterWindows.BalancedCall` | src/core/regacc.cpp:79-81 | a balanced sequence returns to the caller's window with its locals and ins unchanged |
| `RegisterWindows.ThirtyOneIsTooDeep` | include/defines.h:114 | one window deeper a callee's outs are the caller's ins |
| `Deadline.DeadlineThread.DecrementDeadlineTimers` | src/core/special_reg.cpp:127-140 | every timer goes down by one in 32 bits and a set deadline that runs out is missed |
| `Deadline.DeadlineThread.Fetch` | src/core/fetch.cpp:58-79 | timers tick in every round and a held thread keeps its instruction |
| `Deadline.DeadlineThread.DestinationRegularDeadlines` | src/core/regacc.cpp:158-181 | the instruction passes exactly when its timer has run out or it is a load, and otherwise holds the thread |
| `Deadline.DeadlineThread.CheckDeadline` | src/core/regacc.cpp:215-226 | the thread is trapped exactly when some deadline was missed |
| `Deadline.DeadlineThread.RunRound` | src/core/except.cpp:128-131 | a round through the stages has the effect of the round function on timers, status, held instruction and trap flag |
| `Deadline.RoundExactly` | src/core/regacc.cpp:158-181 | after a round every timer, status, the held instruction and the trap flag are, in plain integers, what the decrement, the test, a write and the check for missed deadlines make of them, for every state |
| `Deadline.LoadPasses` | src/core/regacc.cpp:164-175 | a load writes its timer in the round in which it is worked on, whatever the timer shows, and holds nothing |
| `Deadline.LoadInRun` | src/core/regacc.cpp:164-175 | so does every load in every run |
| `Deadline.PlainWaits` | src/core/regacc.cpp:170-181 | any other deadline instruction holds the thread exactly while its timer shows a positive value |
| `Deadline.TimerShows` | src/core/special_reg.cpp:127-140 | from one write to the next a timer shows the value loaded less the rounds gone by, modulo 2^32, in every run |
| `Deadline.TimerClock` | src/core/special_reg.cpp:127-140 | while the difference fits in 32 bits it is the plain difference |
| `Deadline.PassesExactly` | src/core/regacc.cpp:158-181 | a plain deadline instruction passes in a round if and only if the timer then shows no positive value, with no bound on the run |
| `Deadline.PassesAsLoadedExactly` | src/core/regacc.cpp:158-181 | passing means that as many rounds as were loaded have gone by, if and only if the rounds beyond that number, modulo 2^32, are at most 2^31 |
| `Deadline.NeverEarly` | src/core/regacc.cpp:158-181 | no plain deadline instruction passes earlier than max(1, v) rounds after v was loaded, however long the run |
| `Deadline.HeldUntil` | src/core/fetch.cpp:58-71 | an instruction that arrives early, or after the timer has wrapped, holds the thread in every round before its time |
| `Deadline.PassesOnTime` | src/core/except.cpp:510-515 | the exact round in which an instruction passes, for every loaded value and every arrival |
| `Deadline.PassRoundAsLoaded` | src/core/regacc.cpp:158-181 | that round is the later of arrival and expiry of the loaded value while the timer has not wrapped |
| `Deadline.LastCommitNoEarlier` | src/core/except.cpp:510-515 | the n-th commit of a timer comes no earlier than the sum of the values loaded before it |
| `Deadline.LastCommitExact` | src/core/except.cpp:510-515 | when every instruction arrives in time the n-th commit comes at exactly that sum |
| `Deadline.NeverTrapped` | src/core/special_reg.cpp:136-138 | without deadline branches no run ever misses a deadline or traps |
| `Deadline.MissedExactly` | src/core/special_reg.cpp:127-140 | the deadline of a deadline branch is marked missed in a round if and only if the exact number of rounds given for its value has gone by, in every run |
| `Deadline.MissedAsLoaded` | src/core/special_reg.cpp:136-138 | for all but the two most negative values that number is the number of rounds loaded |
| `Deadline.TrapsWhenDue` | src/core/regacc.cpp:215-226 | the thread is trapped in every round from then on in which it fetches and does not write the timer anew |
| `Deadline.TrapCause` | src/core/regacc.cpp:215-226 | a round traps a thread only when some timer was marked missed |
| `Deadline.MostNegativeHolds` | src/core/special_reg.cpp:135 | after loading -2^31 the very next plain deadline instruction does not pass |
| `Deadline.LateArrivalHolds` | src/core/special_reg.cpp:135 | after loading 5 - 2^31 an instruction that arrives six rounds later does not pass |
| `DeadlinePipeline.StagesMakeRound` | src/core/core.cpp:172-184 | the fetch, register access and exception stages, in turn on one thread, make one round of the deadline model |
| `DeadlinePipeline.AtomicFollowsRun` | src/core/core.cpp:172-184 | with these stages atomic round-robin execution takes each thread through its own deadline run, one round a turn |
| `DeadlinePipeline.CoreFollowsRun` | src/core/core.cpp:172-184 | in the pipelined core thread t has after cycle 6k + t + 6 the timers, status and held instruction of k + 1 rounds of its deadline run |
| `MemoryWheel.WindowSize` | src/core/wheeled_mem.cpp:64-71 | the constructor's window is 1 modulo 6 and one to six cycles longer than the longest access |
| `MemoryWheel.DelayOfWords` | src/core/wheeled_mem.cpp:187-189 | an access of one word takes the latency and each further word the throughput delay more |
| `MemoryWheel.OwnerOfWindow` | src/core/wheeled_mem.cpp:191-195 | the thread computed from the cycle count is the window's number plus one in rotation |
| `MemoryWheel.AdmittedFits` | src/core/wheeled_mem.cpp:167-179 | every cycle of an admitted access lies in the same window of the same thread |
| `MemoryWheel.NoOverlap` | src/core/wheeled_mem.cpp:167-189 | admitted accesses of different threads never share a cycle |
| `MemoryWheel.SlotOffsets` | src/core/wheeled_mem.cpp:191-195 | in its own window a thread's memory slots lie at multiples of six and its fetch slots two cycles later |
| `MemoryWheel.MemAdmission` | src/core/wheeled_mem.cpp:167-179 | exactly which memory slots are admitted, for every latency |
| `MemoryWheel.FetchAdmission` | src/core/wheeled_mem.cpp:167-179 | exactly which fetch slots are admitted, and that none is when the longest access is a multiple of six |
| `MemoryWheel.MemWait` | src/core/wheeled_mem.cpp:167-195 | a pending memory request meets an admitted slot within six windows, and no slot before the one named unless the longest access is 1 modulo 6 |
| `MemoryWheel.FetchWait` | src/core/wheeled_mem.cpp:167-195 | the same for a pending fetch |
| `MemoryWheel.MainMemoryWindow` | src/core/memory_controller.cpp:104 | the configured wheel has 19-cycle windows that admit both kinds of request |
| `MemoryWheel.WheeledMem.IsStalledHelper` | src/core/wheeled_mem.cpp:81-107 | the flag, the answer and what is remembered after every request; with a positive latency a request stalls exactly when the wheel does not admit it, and with latency zero always |
| `MemoryWheel.WheeledMem.Write` | src/core/wheeled_mem.cpp:119-125 | the word is stored exactly when the request does not stall |
| `CommandQueue.FullIffNineteen` | soft/graphic/graphic_cmd_queue.c:55-62 | front meets end exactly when nineteen commands are queued |
| `CommandQueue.EmptyIffNothing` | soft/graphic/graphic_cmd_queue.c:85-93 | end follows front exactly when nothing is queued |
| `CommandQueue.WriteAtEnd` | soft/graphic/graphic_cmd_queue.c:64-72 | filling the cell at the end leaves the queue's contents unchanged |
| `CommandQueue.AdvanceEnd` | soft/graphic/graphic_cmd_queue.c:74-76 | moving the end appends the filled cell to the contents |
| `CommandQueue.AdvanceFront` | soft/graphic/graphic_cmd_queue.c:95-106 | moving the front removes the oldest command, which is the one then read |
| `CommandQueue.SenderKeeps` | soft/graphic/graphic_cmd_queue.c:55-83 | every memory access of the sender keeps the invariant: rings, local pointers, separation and the account of commands |
| `CommandQueue.ReceiverKeeps` | soft/graphic/thread2.c:198-212 | every memory access of the receiver keeps it, toggling included |
| `CommandQueue.NeverTheSameRing` | soft/graphic/graphic_cmd_queue.c:111-115 | the two threads never touch the same ring at once |
| `CommandQueue.ReceivedIsPrefix` | soft/graphic/graphic_cmd_queue.c:85-109 | the received commands are a prefix of the accepted ones |
| `CommandQueue.EveryInterleaving` | soft/graphic/graphic_cmd_queue.c:13-126 | under every interleaving: prefix order, separation, and selectors that change only while the sender spins in a flush |
| `CommandQueue.SendRefused` | soft/graphic/graphic_cmd_queue.c:55-62 | a send is refused exactly when its ring holds nineteen commands |
| `CommandQueue.CommandGoesOn` | soft/graphic/graphic_cmd_queue.c:55-83 | under any action of either thread a command asked for stays in the sender's hand unchanged until it is accepted, and is dropped only when its ring holds nineteen commands |
| `CommandQueue.SendOutcome` | soft/graphic/graphic_cmd_queue.c:55-83 | in every interleaving a send ends with exactly the command requested accepted, or with nothing accepted and its ring found to hold nineteen commands |
| `CommandQueue.AcceptedAreRequested` | soft/graphic/graphic_cmd_queue.c:55-83 | in every run that begins with no send in progress the commands accepted since, and then the one in hand, are the commands requested that were not refused, in order |
| `CommandQueue.ReceiveFindsNothing` | soft/graphic/graphic_cmd_queue.c:85-93 | a receive fails exactly when its ring is empty |
| `CommandQueue.FlushSteps` | soft/graphic/graphic_cmd_queue.c:117-126 | a flush asked for raises the flag, and returns at the first look that finds it false and at no other |
| `CommandQueue.FlushOutcome` | soft/graphic/graphic_cmd_queue.c:117-126 | a flush that returns has handed every accepted command over unless the receiver was about to clear the flag when it was set, and then it has handed over nothing |
| `CommandQueue.StepsLeftShrinks` | soft/graphic/thread2.c:198-212 | while the flag is set every receiver step brings the end of the flush nearer |
| `CommandQueue.FlushReturns` | soft/graphic/graphic_cmd_queue.c:117-126 | in every interleaving a flush that has begun finds its flag false after a number of receiver steps bounded by the length of the receiving ring |
| `CommandQueue.FlushLost` | soft/graphic/thread2.c:202-211 | a run of nine steps in which a flush returns without any exchange of the queues |
| `CommandQueue.GraphicInitQueue` | soft/graphic/graphic_cmd_queue.c:13-36 | the loops link both lists into circles of twenty, each end is one past its front, and the two selectors differ |
| `SyncBarrier.HwThreadController.CheckSyncTable` | src/core/hw_thread_controller.cpp:115-146 | the loop and updates over the rows of 16-bit words, bitCount included, have the effect of the poll function on the sets the words name, with its answer |
| `SyncBarrier.HwThreadController.AnswerAt` | src/core/hw_thread_controller.cpp:119-135 | the branch for the row found changes that row as its answer says and no other |
| `SyncBarrier.PollMeaning` | src/core/hw_thread_controller.cpp:115-146 | the three outcomes of a poll row by row: a new mask takes the first free row, a row with threads awaited loses exactly the caller's, and a row with none awaited counts the caller, lets it go and is freed exactly when the count reaches the members; no other row changes |
| `SyncBarrier.AnswerMeaning` | src/core/hw_thread_controller.cpp:119-135 | the same for the row found alone, with the count as a 16-bit word |
| `SyncBarrier.FreeRow` | src/core/hw_thread_controller.cpp:115-146 | while some thread runs there is a free row, since every row in use has a blocked thread of its own |
| `SyncBarrier.BarrierSafety` | src/core/hw_thread_controller.cpp:115-146 | a thread proceeds only after every member has polled since the row was created and not having passed before; the row is freed exactly with the last member |
| `SyncBarrier.StepKeeps` | src/core/hw_thread_controller.cpp:115-146 | every allowed poll keeps the invariant |
| `SyncBarrier.EveryPoll` | src/core/hw_thread_controller.cpp:115-146 | in every disciplined run a poll finds its row, no mask has two rows and nobody proceeds too early |
| `SyncBarrier.TwoRoundsRelease` | src/core/hw_thread_controller.cpp:115-146 | two rounds of polls by the members that have not passed free the row, whatever else is polled |
| `SyncBarrier.DisciplineNeeded` | src/core/hw_thread_controller.cpp:115-146 | at any complete barrier of two a member that reuses the mask at once passes twice and frees the row |
| `SyncBarrier.PassesTwiceExactly` | src/core/hw_thread_controller.cpp:115-146 | in every state of every disciplined run a poll lets a thread pass a barrier again if and only if it reuses a mask it has passed before the row is freed |
| `SyncBarrier.AnsweredAtOnceExactly` | src/core/hw_thread_controller.cpp:115-146 | a running thread is answered with true at once if and only if it breaks the discipline |
| `SyncBarrier.CountedTwice` | src/core/hw_thread_controller.cpp:120-128 | such a pass is counted, so the row is freed exactly when one place was left although a member has still not passed |
| `SyncBarrier.ReuseReached` | src/core/hw_thread_controller.cpp:115-146 | a run of four disciplined polls from the empty table to such a poll, after which the other thread is blocked on a row that is gone |
| `BitCount.CountIsCardinality` | src/core/hw_thread_controller.cpp:227-235 | the bit-twiddled count equals the number of set bits for every 32-bit argument |
| `SyncMask.SameThreads` | src/core/hw_thread_controller.cpp:119 | two 16-bit masks are equal exactly when they name the same threads |
| `SyncMask.ThreadRemoved` | src/core/hw_thread_controller.cpp:133 | clearing bit id removes thread id from the set and nothing else |
| `SyncMask.NoThreads` | src/core/hw_thread_controller.cpp:121 | a mask is zero exactly when it names no thread |
| `SyncMask.ThreadCount` | src/core/hw_thread_controller.cpp:126 | bitCount of a mask is the number of threads it names |
| `Maze.LettersLeadHome` | real_world_simulators/robot_simulator/path_search/all_threads.c:133-154 | from every found cell the letters lead to the start in as many moves as were recorded |
| `Maze.FoundIsWithin` | real_world_simulators/robot_simulator/path_search/all_threads.c:55-105 | every found cell is reachable in as many moves as were recorded |
| `Maze.ExploredAll` | real_world_simulators/robot_simulator/path_search/all_threads.c:84-105 | when the start and all cells found meanwhile are done, no cell left out is reachable |
| `BreadthFirst.TakeFirst` | real_world_simulators/robot_simulator/path_search/all_threads.c:57-58 | taking the front cell keeps exact distances and raises the level only when the whole next level is known |
| `BreadthFirst.FindNeighbour` | real_world_simulators/robot_simulator/path_search/all_threads.c:61-76 | marking and queueing an unvisited neighbour keeps exact distances, queue order and letters |
| `BreadthFirst.ExpandKeeps` | real_world_simulators/robot_simulator/path_search/all_threads.c:61-76 | the four tests for one cell find all its neighbours, keep exact distances, and lengthen the queue by exactly the cells found |
| `BreadthFirst.ExpandedInOrder` | real_world_simulators/robot_simulator/path_search/all_threads.c:61-76 | the unvisited neighbours are queued in the order up, left, down, right with the letters d, r, u and l, and no other cell is marked |
| `BreadthFirst.StepsKeep` | real_world_simulators/robot_simulator/path_search/all_threads.c:57-77 | over any number of expansions the distances stay exact, the letters lead nearer and the queue holds at most two successive levels in order |
| `BreadthFirst.LayersBoundQueue` | real_world_simulators/robot_simulator/path_search/all_threads.c:44-52 | a maze whose successive distance layers hold at most so many cells together never queues more than that |
| `BreadthFirst.NothingLeft` | real_world_simulators/robot_simulator/path_search/all_threads.c:57-78 | an empty queue means that every reachable cell has been found |
| `PathSearch.EnqueueHolds` | real_world_simulators/robot_simulator/path_search/all_threads.c:49-50 | the macro's two stores and wrapped index append a pair to the ring, except that a fortieth pair leaves it empty |
| `PathSearch.DequeueHolds` | real_world_simulators/robot_simulator/path_search/all_threads.c:51-52 | the macro reads and removes the oldest pair |
| `PathSearch.EmptyWhenEqual` | real_world_simulators/robot_simulator/path_search/all_threads.c:57 | equal indices mean an empty ring, as long as one pair of places stays unused |
| `PathSearch.FortyLookEmpty` | real_world_simulators/robot_simulator/path_search/all_threads.c:57 | forty pairs, and no smaller number, would give the two indices the same value as none |
| `PathSearch.Searcher.Bfs` | real_world_simulators/robot_simulator/path_search/all_threads.c:55-80 | for every maze the search ends, and succeeds only with the robot's cell reachable and letters that lead from it to '^'; while at most 39 pairs are ever queued it succeeds if and only if the cell is reachable and the letters take exactly the least number of moves |
| `PathSearch.Searcher.Visit` | real_world_simulators/robot_simulator/path_search/all_threads.c:61-64 | a test keeps letters and ring sound whatever the ring has lost, and is the step of the ideal search while that fits the ring |
| `PathSearch.Searcher.Dfs` | real_world_simulators/robot_simulator/path_search/all_threads.c:84-105 | the recursion ends, keeps the letters and every mark once made, enters the first unvisited neighbour in the order up, left, down, right, and fails only with everything found from the cell done and the robot not among it |
| `PathSearch.NextTest` | real_world_simulators/robot_simulator/path_search/all_threads.c:88-102 | after each test the marks say which neighbour was entered first, and a test that finds an open cell may end the search |
| `PathSearch.Searcher.Prefire` | real_world_simulators/robot_simulator/path_search/all_threads.c:156-166 | both grids hold walls and '0' as the maze does, and the ring is empty |
| `PathSearch.Searcher.BreadthFirstRound` | real_world_simulators/robot_simulator/path_search/all_threads.c:231-236 | the same for a round from any earlier contents of the arrays |
| `PathSearch.Searcher.DepthFirstRound` | real_world_simulators/robot_simulator/path_search/all_threads.c:231-236 | the same answer by depth first, with letters that lead to the goal |
| `PathSearch.PrintPath` | real_world_simulators/robot_simulator/path_search/all_threads.c:133-154 | following the letters of such a cell ends at the goal after exactly that many moves, having printed every place |
| `MergeSort.ShiftTo` | soft/mergesort.c:23-29 | the element at the source moves to the destination and those between move up by one |
| `MergeSort.MergeSorts` | soft/mergesort.c:31-40 | merging two sorted lists gives a sorted list |
| `MergeSort.MergePermutes` | soft/mergesort.c:31-40 | merging keeps exactly the elements of both lists |
| `MergeSort.CombineAr` | soft/mergesort.c:31-40 | the in-place loop with its moving boundary replaces the segment by the merge of its two parts, sorted or not |
| `MergeSort.MergeS` | soft/mergesort.c:42-51 | for any array and any pivot in the segment the recursion ends and leaves the segment a sorted permutation, and nothing else changed |
| `Scratchpad.L1Scratch.constructor` | src/core/l1_scratch.cpp:35-40 | the scratchpad starts with no resident word and every slot empty |
| `Scratchpad.L1Scratch.IsAddrInSpm` | src/core/l1_scratch.cpp:105-110 | a word is found exactly when it is resident and not at address zero |
| `Scratchpad.L1Scratch.AddAddr` | src/core/l1_scratch.cpp:87-102 | the slot's old word is dropped and the new one stored, unless the slot address is out of range |
| `Scratchpad.L1Scratch.UpdateAddr` | src/core/l1_scratch.cpp:69-77 | only a resident word is changed |
| `Scratchpad.RunSlotted` | src/core/l1_scratch.cpp:69-110 | over any sequence of operations every resident address is in the slot table |
| `Scratchpad.NeverOverfull` | src/core/l1_scratch.cpp:69-110 | at most SCRATCH_SIZE/4 words are ever resident |
| `Scratchpad.HoldsLastStored` | src/core/l1_scratch.cpp:69-102 | in every run a resident word has the data of the last operation that stored it |
| `Scratchpad.SlotHoldsLast` | src/core/l1_scratch.cpp:87-102 | in every run a slot has the address last put into it, and none before that |
| `Scratchpad.OneToOneExactly` | src/core/l1_scratch.cpp:87-102 | an operation keeps slots and residents in one-to-one correspondence if and only if an added address is nonzero and in no other slot |
| `Scratchpad.RunOneToOne` | src/core/memory_controller.cpp:109-116 | over any sequence of such operations the correspondence holds |

## Assumptions

- The cycle counter and the thread counter start at zero together and are natural numbers: their
  wrap-around at 2^32 would shift the phase of the schedule.
- `Pipeline`: each stage may read and change its thread and one of three shared parts (fetch,
  memory, commit); stages that touch other shared state are not covered.
- `SyncBarrier`: a SYNC mask contains the calling thread and only existing threads. The theorems
  about whole runs take the discipline stated above as their hypothesis.
- `PathSearch`: the maze has walls on its border and the readings of the sensors do not change during
  a search. Completeness and shortest paths of `Bfs` are stated for searches that never queue more
  than 39 pairs; `BreadthFirst.LayersBoundQueue` gives a sufficient condition on the maze alone, and
  whether any maze of this size breaks the bound is not settled here.
- `DelayedBranch`: the instruction's own program counter field stays zero, as nothing sets it.

## Left out

- The tables PC1 and PC2 of the key schedule are copied as they stand, and their agreement with FIPS 46-3 is not stated.
- DES table contents: SP1 to SP8 are parameters, so agreement with the FIPS S-boxes is not stated; clearing of temporaries is not modelled.
- UINT4 in the DES code is taken to be 32 bits wide.
- Overflow of the signed timers and of the test on them, undefined in C++, is taken to wrap around in 32 bits.
- Trap entry and return, and everything after a missed deadline has trapped the thread.
- `Deadline.DeadlineThread.Fetch`: does not model the hold of a trapped thread, whose later rounds belong to trap entry; a memory stall is one of the inputs that carry no deadline instruction.
- `Deadline.DeadlineThread.RunRound`: does not model the exception stage of a trapped thread; `Deadline.NeverTrapped` shows when there is none.
- Phase-locked deadline timers (registers 8 and up).
- Double-word loads and stores themselves; only their effect on the branch slot is modelled.
- `Pipeline.FetchingAdvances`: does not model one memory controller shared by fetches and data accesses; the fetch stage has a shared part of its own.
- `Pipeline.MemoryAdvances`: does not model the controllers' own behavior between the stages of a cycle; the memory part changes only by memory stages.
- `Pipeline.Core.Behavior`: does not model the memory and DMA controllers' behavior within a cycle, nor state shared by two different stages other than the thread itself.
- Store alignment and sub-word data of the memory stage: the stages are parameters of `Pipeline`.
- DMA transfers and bursts.
- The hold-off of the memory wheel's clients: with a positive latency the flag that would start it is never raised, so only admission is claimed.
- `CommandQueue`: the receiver's copies of a whole cell are modelled by the fields it goes on to use.
- `PathSearch.Searcher.Bfs`: completeness and shortest paths are stated for searches that queue at most 39 pairs; once a fortieth pair has emptied the ring only a sound end is promised.
- `PathSearch.Searcher.BreadthFirstRound`: the same.
- Structures, constructors, wiring, debugging output, parsers, device drivers and demonstration programs.
