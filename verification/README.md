# Models and proofs

This project models the algorithmic cores of the repository in Dafny and proves what they promise: the KVM
guest-state machinery of `va_tr23/va_tr/kvm/x86.c`, the RSA, AES, MD5 and CRC-32 code, the page-table
disable/restore module, the enclave's bounded buffer, and sysbench's barrier, latency histogram and bulk insert.
Code that changes state in place is a class or a method over arrays, proved against a specification function; the
promises are lemmas about those functions. Concurrent code is a step system whose runs are all interleavings.

`dafny verify dfyconfig.toml` verifies everything.

## What each module shows

- `Crc32`, `Crc32Vectors`: the byte loop equals a bit-serial register; the checksum is the complement of the message
  polynomial's remainder modulo the generator, the only remainder there is; the register step is xor-linear with trivial
  kernel, so every error burst of at most 32 bits changes the checksum, for messages of any length.
- `TimeScale`: when `kvm_get_time_scale` terminates, exactly; its result is a 32-bit quotient of the reduced
  frequencies, never below 2^31 - 1, and how far it can be from the true ratio in either direction.
- `AsyncPf`: open addressing with backward-shift deletion refines a multiset, for any hash function; exactly when
  an insertion's probe loop ends.
- `Mmio`: an access served by memory, devices and user-space exits moves each byte exactly once, from the source that
  serves it: memory where a page is memory and the copy succeeds, otherwise the devices up to the first chunk they
  refuse and user space from there; every exit carries exactly the bytes it shows.
- `GuestVirt`: the page-splitting guest read and write do exactly what a byte-by-byte loop would, failures included;
  a range reads back what was written exactly when no two of its bytes share a physical address.
- `Tsc`: over all runs of overlapping calls, the matched-vCPU counter is exact as long as no second section overtakes
  another to any effect, in particular whenever second sections follow the order of the first ones; a step that does
  overtake is exactly one that breaks it. A write joins a generation exactly when it is zero or less than one second
  off, at the last write's frequency.
- `ExceptionQueue`: pending and injected are never both set; over every run a triple fault is requested exactly when
  an earlier step left a double fault, by merging or by name, and nothing was reset since; an entry injects at most
  one event.
- `Numbers`, `RsaArith`, `Rsa`: Euclid, Fermat and the loop of the Jacobi symbol; the RSA round trip, exactly for which
  keys it holds and, under a good key, exactly for which messages, with signed and with unsigned characters.
- `Solovay`: a function defined by Gauss's count obeys the laws of the Jacobi symbol, quadratic reciprocity included, so
  it is what the loop computes; by Euler's criterion the primality test never rejects a prime, and therefore the search
  for a prime ends whatever the random numbers are.
- `AesField`, `AesSbox`, `Aes`, `AesLoops`, `AesVectors`: AES-128 decryption undoes encryption, from the field arithmetic
  up to the buffers; the substitution table is the affine image of field inverses, and the published example comes out.
- `Md5`, `Md5Vectors`: the digest depends only on the message, not on how it was split; what each round function selects,
  that every step can be undone and every round uses each word once; the published digests of "" and "abc"; exactly
  which inputs the block loop ends on.
- `PageTable`: an address whose digits lead through tables to an entry translates by that entry; disabling and restoring a range is the identity exactly when no present entry is visited twice, which
  is so for every range of mapped pages of a tree of tables; no translation changes at any point.
- `CondBuffer`: no reachable state is deadlocked, runs are bounded, and the ring ends empty.
- `Barrier`: nobody leaves a round early, and each call's result is determined by its round.
- `Histogram`: no event is lost or counted twice while others record, and each merge collects all that was recorded
  before it.
- `BulkInsert`: over every sequence of calls, failing ones included, what was sent and what is pending is what was given
  and, once more, the rows of statements whose commit failed; on a working connection every row is sent once, in
  order, in well-formed statements, and committed, if and only if every row fits alone behind the head.

## Where the code falls short of its promise

- RSA (`Rsa.RoundTripExactly`): `main.c` does not check that the two primes differ. With p = q and e > 1 the block
  equal to p decodes to zero (`Rsa.RepeatedPrimeLosesBlock`); the round trip holds if and only if p differs from q or
  e is 1.
- Clock scale (`TimeScale.HaltsExactly`): the loops run for ever when the base frequency is zero or when twice the
  target is zero modulo 2^64, and on no other input.
- MD5 (`Md5.LoopEndsExactly`): the block loop's 32-bit index wraps and the loop does not end when one input is at least
  2^32 - 64 bytes plus the first index modulo 64; on every shorter input it does.
- Page table (`PageTable.RestoreExactly`, `PageTable.SharedCase`): a range in which two pages share a present entry comes
  back with that entry not present.
- Exceptions (`ExceptionQueue.ArrivalKeepsExactly`): reinjecting over a pending exception that it does not merge with
  sets both flags; the code relies on its callers for that.
- RSA messages (`Rsa.MainKeyFails`, `Rsa.StaysInsideExactly`, `Rsa.ReturnsExactly`): `main.c` encodes a 16-byte key
  with bytes above 127. The loop stays inside its arrays if and only if the length is a multiple of the block size,
  which 16 is not when the modulus asks for three characters a block; with two the key does not come back. A message
  comes back if and only if each block is 7-bit, or zero but for a negative last character; where characters are
  unsigned, if and only if it is 7-bit (`Rsa.UnsignedReturnsExactly`).
- TSC (`Tsc.SecondExactly`, `Tsc.CrossedExactly`): two overlapping calls whose second sections run in crossed order
  leave the counter wrong if and only if one of them opens a generation and the other raises the counter. The
  master-clock test may then miss (`Tsc.InterleavedMiss`) or pass wrongly (`Tsc.InterleavedFalseMatch`).
- Bulk insert, room (`BulkInsert.DbConn.Next`, `BulkInsert.OverrunCase`): the room test is not repeated after a flush.
  The copy ends behind the buffer if and only if the buffer has rows, the row does not fit, the flush succeeds and the
  row does not fit alone behind the head.
- Bulk insert, failures (`BulkInsert.OnceExactly`, `BulkInsert.FailedFlush`, `BulkInsert.ResendCase`): when a statement
  goes out and its commit fails, its rows stay in the buffer and go out again with the next flush. Rows are sent once,
  in order, if and only if no call failed that way; a failed statement does no harm.
- Bulk insert, dropped rows (`BulkInsert.DbConn.Next`): a call on an invalid connection, or one on which the release of
  the last result fails, returns success and drops the row.
- Clock scale, precision (`TimeScale.PairAccurate`): a small target keeps few bits of the base, so all that holds of the
  multiplier is that it exceeds the true one by at most one part in the target frequency (taken modulo 2^63).
- Barrier (`Barrier.RoundResults`): the error flag is never reset, so after one failed callback every later round
  returns -1 to all but its last caller, whose own result is still SERIAL_THREAD when its callback succeeds.
- Page table, records (`PageTable.OverrunExactly`): the record array holds 1000 pages and its index is not tested; a
  record behind it is written if and only if the walk of the range reaches page 1000.
- Prime search (`Solovay.SmallNeverEnds`): with a limit of one or two the only candidate is one, and the search never
  ends; with any larger limit it does.
- Histogram (`Histogram.StaleCountExactly`, `Histogram.StaleCountAtHundred`): initialisation never sets the cumulative
  event count. The scan never reads outside the array, but the bucket it returns is outside if and only if the rank
  computed from the inflated count exceeds the events in the buckets; for percentile 100, whenever anything is extra.
- Async page faults (`AsyncPf.ProbeEndsExactly`): the probe loop of an insertion ends if and only if some slot is free;
  in a full table it runs for ever.

## Model

| member | source | states |
|---|---|---|
| Crc32.Crc | va_tr23/va_tr/crc.c:12-30 | the byte-at-a-time loop computes the bit-serial checksum of the message, least significant bit first |
| Crc32.FeedLinear | va_tr23/va_tr/crc.c:15-26 | feeding is xor-linear in register and message together |
| Crc32.ShiftsKernel | va_tr23/va_tr/crc.c:20-23 | no number of shifts takes a non-zero register to zero |
| Crc32.FeedWord | va_tr23/va_tr/crc.c:15-26 | feeding up to 32 bits is xoring them in as one word and shifting |
| Crc32.WindowedDifference | va_tr23/va_tr/crc.c:12-30 | a non-zero difference inside 32 consecutive bits leaves a non-zero register, wherever it lies |
| Crc32.ChecksumDifference | va_tr23/va_tr/crc.c:12-30 | the xor of two checksums depends only on the xor of the messages |
| Crc32.BurstDetected | va_tr23/va_tr/crc.c:12-30 | two different messages of one length that agree outside 32 consecutive bits have different checksums |
| Crc32.DivisionExactly | va_tr23/va_tr/crc.c:20-23 | long division by the generator of section 8 of RFC 1952, given by its exponents, finds the one quotient and the one remainder of degree below 32 that make up the dividend |
| Crc32.FeedIsRemainder | va_tr23/va_tr/crc.c:15-26 | the register, x^31 in its least significant bit, is the remainder of the message times x^32 with the start of the register added to its first 32 coefficients |
| Crc32.ChecksumIsRemainder | va_tr23/va_tr/crc.c:12-30 | for every message the checksum is the complement of the remainder of the message, first bit highest, times x^32 with ones added to its first 32 coefficients |
| Crc32Vectors.CheckValue | va_tr23/va_tr/crc.c:12-30 | the checksum of "123456789" is CBF43926 |
| TimeScale.HaltsExactly | va_tr23/va_tr/kvm/x86.c:2189-2203 | both loops end if and only if the base is non-zero and twice the target is non-zero modulo 2^64 |
| TimeScale.ZeroNeverLeaves | va_tr23/va_tr/kvm/x86.c:2197-2203 | from a zero divisor the second loop never ends |
| TimeScale.QuotientBounds | va_tr23/va_tr/kvm/x86.c:2197-2206 | the kept bound between the two frequencies puts the quotient in [2^31 - 1, 2^32) |
| TimeScale.GetTimeScale | va_tr23/va_tr/kvm/x86.c:2175-2207 | the multiplier is the floor of the shifted quotient of the reduced frequencies, which are halvings and doublings of the inputs accounted for by the shift; it fits 32 bits, is at least 2^31 - 1, and is accurate as in the next row |
| TimeScale.PairAccurate | va_tr23/va_tr/kvm/x86.c:2189-2206 | multiplier times 2^(shift - 32) exceeds the true ratio by at most one part in the target frequency modulo 2^63, or in 2^31 if that is less, and with one more in the last place falls short by at most one part in 2^30 |
| AsyncPf.Apf.constructor | va_tr23/va_tr/kvm/x86.c:334-339 | a table of free slots holds nothing |
| AsyncPf.Apf.Add | va_tr23/va_tr/kvm/x86.c:12268-12276 | wherever the probe loop ends, adds one occurrence and keeps every probe path unbroken |
| AsyncPf.ProbeEndsExactly | va_tr23/va_tr/kvm/x86.c:12268-12276 | the probe loop of an insertion ends if and only if the table is not full |
| AsyncPf.Apf.GfnSlot | va_tr23/va_tr/kvm/x86.c:12278-12289 | finds the entry if it is anywhere in the table, otherwise the first free slot of its path, or its home in a full table |
| AsyncPf.Apf.Find | va_tr23/va_tr/kvm/x86.c:12291-12294 | answers membership, for any hash |
| AsyncPf.Apf.Del | va_tr23/va_tr/kvm/x86.c:12296-12321 | removes exactly one occurrence, keeps every probe path unbroken, and terminates |
| AsyncPf.Apf.Scan | va_tr23/va_tr/kvm/x86.c:12307-12317 | finds an entry whose path crosses the hole, or shows that none does |
| AsyncPf.ScanDone | va_tr23/va_tr/kvm/x86.c:12307-12317 | at a free slot the hole no longer cuts any probe path |
| AsyncPf.MovedCloser | va_tr23/va_tr/kvm/x86.c:12311-12317 | the cyclic interval test says exactly whether the hole is nearer to the entry's home than the entry |
| AsyncPf.MovedLinked | va_tr23/va_tr/kvm/x86.c:12318-12319 | moving the entry into the hole moves the damage to its old slot only |
| AsyncPf.MovedTotal | va_tr23/va_tr/kvm/x86.c:12318-12319 | each move lowers the total distance of entries from home, so deletion ends |
| Mmio.Vcpu.LocalMmio | va_tr23/va_tr/kvm/x86.c:6276-6317 | the in-kernel devices take a prefix, in chunks of at most 8 bytes each of which they accept, and stop at the first chunk refused |
| Mmio.Vcpu.OnePage | va_tr23/va_tr/kvm/x86.c:6681-6730 | a part is one transfer of guest memory, with no fragment, exactly when its page is memory and the copy succeeds; otherwise devices serve it up to the first chunk refused, and a fragment is left for exactly the rest if there is one; nothing before it changes |
| Mmio.WhoServes | va_tr23/va_tr/kvm/x86.c:6710-6728 | a transfer is one of guest memory exactly where the page is memory and the copy succeeds, and then the whole part; a device moves only what it takes, user space only what lies behind a chunk refused |
| Mmio.WhoNeedsUserSpace | va_tr23/va_tr/kvm/x86.c:6710-6728 | memory that can be copied never leaves a fragment, a part whose first chunk is refused always does, and one whose chunks are all taken never |
| Mmio.PartsAre | va_tr23/va_tr/kvm/x86.c:6746-6771 | the parts tile the access, each inside one page at its own linear address, addr + pos, cut to 32 bits behind the first page outside 64-bit mode; the access faults exactly when one of these addresses does |
| Mmio.CrossesExactly | va_tr23/va_tr/kvm/x86.c:6748-6752 | an access crosses exactly when it does not fit the room in its first page, which is then what its first part takes |
| Mmio.SplitInside | va_tr23/va_tr/kvm/x86.c:6748-6763 | an access that crosses a page leaves a non-empty first part shorter than the access |
| Mmio.Vcpu.ServePages | va_tr23/va_tr/kvm/x86.c:6746-6771 | faults exactly when a page faults; otherwise the one or two parts are those of the access, each served by its own source, with at most two fragments open, and some exactly when a part leaves bytes to user space |
| Mmio.Vcpu.ReadWrite | va_tr23/va_tr/kvm/x86.c:6732-6784 | the first exit is set up exactly when some part leaves bytes to user space, otherwise the access is finished; a completed read is consumed once |
| Mmio.Vcpu.FinishPiece | va_tr23/va_tr/kvm/x86.c:10321-10336 | exactly one transfer is recorded for the current fragment, with the address, length and data of the exit on show; its bytes go to their place, the fragment shrinks by them, and less remains |
| Mmio.Vcpu.ShowExit | va_tr23/va_tr/kvm/x86.c:10348-10353 | the exit shows the front of the current fragment, 1 to 8 bytes |
| Mmio.Vcpu.Complete | va_tr23/va_tr/kvm/x86.c:10313-10356 | the transfer recorded is the exit that was on show, data included; less remains to do, and the last exit leaves every byte moved |
| Mmio.EachByteOnce | va_tr23/va_tr/kvm/x86.c:6681-6784 | in a finished part each byte is in exactly one transfer, with the buffer's value, at its own address |
| Mmio.TransfersInside | va_tr23/va_tr/kvm/x86.c:6681-6784 | no transfer reaches outside its part |
| Mmio.Vcpu.WholeAccess | va_tr23/va_tr/kvm/x86.c:6732-6784 | a whole access with user space answering every exit ends; unless a page faults, each byte moves once, in order within its page, by the source that serves it, and a read holds what its sources supplied |
| GuestVirt.SamePage | va_tr23/va_tr/kvm/x86.c:6384-6395 | inside a page, translations are consecutive and in one frame |
| GuestVirt.PieceRun | va_tr23/va_tr/kvm/x86.c:6384-6402 | a piece inside a page is moved whole or not at all |
| GuestVirt.PieceStored | va_tr23/va_tr/kvm/x86.c:6482-6500 | writing a piece as a block is writing its bytes one by one |
| GuestVirt.GuestMemory.ReadHelper | va_tr23/va_tr/kvm/x86.c:6377-6406 | result code, bytes read and untouched rest are those of a loop that translates every byte's address on its own |
| GuestVirt.GuestMemory.WriteHelper | va_tr23/va_tr/kvm/x86.c:6475-6504 | result code and memory are those of the byte-by-byte loop, also when pages share a frame |
| GuestVirt.GuestMemory.WriteThenRead | va_tr23/va_tr/kvm/x86.c:6377-6504 | after a successful write the read succeeds and returns the written bytes if their physical addresses differ |
| GuestVirt.ReadBackExactly | va_tr23/va_tr/kvm/x86.c:6377-6504 | a range reads back everything written to it if and only if no two of its bytes share a physical address |
| GuestVirt.FramesSuffice | va_tr23/va_tr/kvm/x86.c:6377-6504 | pages in distinct frames are enough for that |
| GuestVirt.TwoPagesSuffice | va_tr23/va_tr/kvm/x86.c:6377-6504 | there are such ranges whose pages lie far apart |
| Tsc.Kvm.Locked | va_tr23/va_tr/kvm/x86.c:2457-2543 | the section under tsc_write_lock joins or opens a generation, and sets the vCPU's offset and records accordingly |
| Tsc.OneSecondWindow | va_tr23/va_tr/kvm/x86.c:2470-2490 | where nothing wraps, a non-zero write that many milliseconds of cycles before or after the expected value is an attempt to synchronize if and only if that is less than 1000 |
| Tsc.JoinsExactly | va_tr23/va_tr/kvm/x86.c:2470-2543 | the first section joins the current generation exactly for such a write, or one of zero, at the last write's frequency, and otherwise opens a new one from this write; what it records of the write |
| Tsc.NoFrequencyOpens | va_tr23/va_tr/kvm/x86.c:2464-2529 | without a frequency of its own a vCPU's write never joins |
| Tsc.UnstableMovesOn | va_tr23/va_tr/kvm/x86.c:2499-2507 | on an unstable host clock a joined write is recorded as far from the expected value as it was from the last write |
| Tsc.FirstSettles | va_tr23/va_tr/kvm/x86.c:2457-2543 | with any calls between their sections, a first section does what a whole call would do on the clock as it will be once the pending second sections have run |
| Tsc.Kvm.SynchronizeTsc | va_tr23/va_tr/kvm/x86.c:2457-2554 | a call with nothing in between keeps the counter exact |
| Tsc.SynchronizeInv | va_tr23/va_tr/kvm/x86.c:2457-2554 | after such a call the counter plus one is the number of vCPUs in the current generation |
| Tsc.FirstOpens | va_tr23/va_tr/kvm/x86.c:2499-2529 | the first call of a VM always opens a generation |
| Tsc.SecondExactly | va_tr23/va_tr/kvm/x86.c:2543-2554 | with any calls between their sections, one more second section keeps the counter on course if and only if it overtakes no earlier one to any effect: no raise past a reset, no reset past a raise that counts, unless a later reset follows |
| Tsc.InOrderIsOrderly | va_tr23/va_tr/kvm/x86.c:2543-2554 | second sections in the order of the first ones never overtake |
| Tsc.RunInv | va_tr23/va_tr/kvm/x86.c:2457-2554 | over every run of overlapping calls and vCPU creations in which no second section overtakes to any effect, the counter is exact once the pending second sections have run |
| Tsc.MatchedMeansShared | va_tr23/va_tr/kvm/x86.c:2741-2754 | after any such run with no call in between its sections, the counter plus one is the number of vCPUs in the current generation, and the master-clock test holds if and only if all online vCPUs share it |
| Tsc.CrossedExactly | va_tr23/va_tr/kvm/x86.c:2457-2554 | two overlapping calls with their second sections crossed keep the counter exact if and only if it is not the case that one resets it and the other raises it |
| Tsc.Kvm.VcpusMatched | va_tr23/va_tr/kvm/x86.c:2315-2316 | the test answers whether all online vCPUs share the current generation |
| Tsc.InterleavedMiss | va_tr23/va_tr/kvm/x86.c:2543-2554 | a crossed run after which all vCPUs share a generation and the test fails |
| Tsc.InterleavedFalseMatch | va_tr23/va_tr/kvm/x86.c:2543-2554 | a crossed run after which they do not and the test holds |
| ExceptionQueue.Vcpu.DeliverPayload | va_tr23/va_tr/kvm/x86.c:547-599 | a payload goes to dr6 or cr2 and is gone; dr6 reads active-low bits inverted and bit 12 clear |
| ExceptionQueue.FlippedIsMuxed | va_tr23/va_tr/kvm/x86.c:561-590 | raising the active-low bits and flipping back those the payload sets selects the inverted payload on active-low bits and the merged bits elsewhere |
| ExceptionQueue.ReflectedBits | va_tr23/va_tr/kvm/x86.c:561-590 | what dr6 then reads, by masks: bit 12 clear, the active-low bits the inverted payload, the others kept or set by the payload |
| ExceptionQueue.ClassesDecide | va_tr23/va_tr/kvm/x86.c:505-520 | the class comparison of the code is the manual's double-fault table, given in vector numbers |
| ExceptionQueue.TypesDecide | va_tr23/va_tr/kvm/x86.c:529-550 | the two masks of the code make every vector a fault but 1, 3, 4, 8 and 18 |
| ExceptionQueue.ArrivalLeaves | va_tr23/va_tr/kvm/x86.c:611-674 | what an arrival leaves in each case, in vector numbers |
| ExceptionQueue.EntryExactly | va_tr23/va_tr/kvm/x86.c:9273-9425 | exactly when an exception, SMI, NMI or interrupt goes in: nothing that comes before it is there or allowed |
| ExceptionQueue.Vcpu.MultipleException | va_tr23/va_tr/kvm/x86.c:602-674 | an arrival is queued, replaces, merges to a double fault or requests a triple fault by the table, and delivers its payload only when queued |
| ExceptionQueue.Vcpu.SetVcpuEvents | va_tr23/va_tr/kvm/x86.c:4587-4626 | which event sets are refused, and that an accepted one leaves at most one flag |
| ExceptionQueue.AcceptedLeaves | va_tr23/va_tr/kvm/x86.c:4587-4626 | an accepted set leaves a live exception only with a vector below 32 other than 2, pending only with the payload flag, and injected only when not pending |
| ExceptionQueue.Vcpu.InjectException | va_tr23/va_tr/kvm/x86.c:9273-9353 | a pending exception becomes injected with its side effects, its error code dropped outside protected mode; exceptions come before a waiting NMI or interrupt |
| ExceptionQueue.ChangedBits | va_tr23/va_tr/kvm/x86.c:9326-9348 | bit 13 of dr7 is cleared, bit 16 of the flags set, and all others kept |
| ExceptionQueue.Vcpu.InjectPendingEvent | va_tr23/va_tr/kvm/x86.c:9273-9425 | nothing stays pending, at most one event is injected, by priority, and an error code survives only in protected mode; the result is the first refusal met, and an immediate exit is asked for exactly when that is EBUSY |
| ExceptionQueue.StepInv | va_tr23/va_tr/kvm/x86.c:602-674 | every step keeps pending and injected exclusive and live vectors valid |
| ExceptionQueue.RunInv | va_tr23/va_tr/kvm/x86.c:602-674 | so does every run that reinjects only when nothing is pending |
| ExceptionQueue.ArrivalKeepsExactly | va_tr23/va_tr/kvm/x86.c:611-645 | an arrival breaks exclusiveness if and only if it reinjects over a pending exception without merging |
| ExceptionQueue.LiveOrigin | va_tr23/va_tr/kvm/x86.c:602-674 | over every run, a live double fault was left by some step, merged or by name, with nothing reset since; any other live exception is the last one brought |
| ExceptionQueue.DoubleStays | va_tr23/va_tr/kvm/x86.c:653-668 | a double fault, merged or by name, stays live until it is reset, whatever arrives |
| ExceptionQueue.TripleExactly | va_tr23/va_tr/kvm/x86.c:646-652 | over every run from an empty queue, an arrival requests a triple fault if and only if an earlier step left a double fault, by merging with the exception before it or by name, queued or in an accepted event set, and nothing was cleared or replaced since |
| RsaArith.ModPow | jxsmile19/smile-case1/rsa.h:14-26 | square-and-multiply is the power modulo c with the sign of the remainder in C, for every int base, without overflow of 64 bits |
| RsaArith.GcdLoop | jxsmile19/smile-case1/rsa.h:87-95 | the result is the greatest common divisor |
| RsaArith.CoefficientStep | jxsmile19/smile-case1/rsa.h:113-126 | each turn keeps the coefficients combinations of the inputs, opposite in sign, with constant weighted sum |
| RsaArith.CoefficientBound | jxsmile19/smile-case1/rsa.h:113-126 | the coefficients never exceed the inputs |
| RsaArith.StepProductBound | jxsmile19/smile-case1/rsa.h:113-126 | neither do the products inside the loop |
| RsaArith.Inverse | jxsmile19/smile-case1/rsa.h:113-126 | for coprime inputs a value in [1, modulus) whose product with n is 1 modulo modulus |
| RsaArith.DropTwos | jxsmile19/smile-case1/rsa.h:37-39 | factoring out twos keeps the symbol up to the sign it accumulates |
| RsaArith.Jacobi | jxsmile19/smile-case1/rsa.h:31-49 | for odd n >= 3 the result is in {-1, 0, 1}, non-zero exactly for coprime arguments, and equals every function that obeys the Jacobi laws |
| Solovay.LawsHold | jxsmile19/smile-case1/rsa.h:31-49 | the symbol defined by Gauss's count obeys the Jacobi laws, so jacobi computes it |
| Solovay.GaussTwo | jxsmile19/smile-case1/rsa.h:39-39 | the law for a factor of two, by the class of n modulo 8 |
| Solovay.GaussReciprocity | jxsmile19/smile-case1/rsa.h:41-44 | quadratic reciprocity for all odd a and n, by counting the points of a rectangle on both sides of its diagonal |
| Solovay.EulerCriterion | jxsmile19/smile-case1/rsa.h:53-57 | modulo an odd prime the symbol is a to the power (p - 1) / 2 |
| Solovay.SolovayPrime | jxsmile19/smile-case1/rsa.h:53-57 | passes exactly when a is coprime to n and Euler's criterion holds; a prime passes for every a |
| Solovay.ProbablePrime | jxsmile19/smile-case1/rsa.h:61-68 | two, or an odd number above two for which every drawn candidate passes; no prime is ever rejected |
| Solovay.RandPrime | jxsmile19/smile-case1/rsa.h:74-82 | for a limit of at least three the search ends within one round, whatever is drawn, with an odd number from three to below the limit rounded up to even that passed its tests |
| Solovay.SmallNeverEnds | jxsmile19/smile-case1/rsa.h:74-82 | for a limit of one or two every candidate is one, which is rejected |
| Numbers.Fermat | jxsmile19/smile-case1/rsa.h:14-26 | Fermat's little theorem, which makes decryption undo encryption |
| Rsa.PowerReturns | jxsmile19/smile-case1/rsa.h:158-167 | an exponent that is 1 modulo p - 1 returns every residue modulo p, multiples of p included |
| Rsa.BothPrimes | jxsmile19/smile-case1/rsa.h:158-167 | with distinct primes it returns every residue modulo their product |
| Rsa.BlockReturns | jxsmile19/smile-case1/rsa.h:158-167 | section 5.1 of RFC 8017: decode undoes encode on every block below the modulus |
| Rsa.NumberReturns | jxsmile19/smile-case1/rsa.h:158-167 | so it does on every number smaller than the modulus in absolute value, negative ones included, because both exponents are odd |
| Rsa.BlockReturnsExactly | jxsmile19/smile-case1/rsa.h:177-212 | a block of signed characters comes back if and only if it is 7-bit, or all zero but for a negative last character |
| Rsa.ReturnsExactly | jxsmile19/smile-case1/rsa.h:177-212 | a message of whole blocks comes back if and only if each of its blocks does |
| Rsa.UnsignedReturnsExactly | jxsmile19/smile-case1/rsa.h:177-212 | where characters are unsigned, if and only if it is 7-bit |
| Rsa.DigitOfPacked | jxsmile19/smile-case1/rsa.h:202-206 | unpacking character j of a packed 7-bit block gives character j |
| Rsa.PackedDigits | jxsmile19/smile-case1/rsa.h:181-183 | packing the characters of a number gives the number |
| Rsa.PackedThree | jxsmile19/smile-case1/rsa.h:181-183 | the first character of a block is the least significant |
| Rsa.BlockFits | jxsmile19/smile-case1/main.c:998-1000 | the block size picked from the modulus keeps every block below it, and is the largest up to three that does |
| Rsa.Encode | jxsmile19/smile-case1/rsa.h:158-160 | the power modulo n, with the sign of the remainder in C |
| Rsa.Decode | jxsmile19/smile-case1/rsa.h:165-167 | the power modulo n, with the sign of the remainder in C |
| Rsa.EncodeMessage | jxsmile19/smile-case1/rsa.h:177-189 | for any characters, signed or not, wherever the loop stays inside its arrays: entry i is the encoding of the i-th block |
| Rsa.StaysInsideExactly | jxsmile19/smile-case1/rsa.h:177-183 | the loop stays inside both arrays if and only if the length is a multiple of the block size |
| Rsa.DecodeMessage | jxsmile19/smile-case1/rsa.h:199-212 | the characters of all decoded blocks in order |
| Rsa.RoundTrip | jxsmile19/smile-case1/rsa.h:177-212 | every 7-bit message of whole blocks comes back, blocks divisible by a prime included |
| Rsa.RepeatedPrimeLosesBlock | jxsmile19/smile-case1/main.c:984-997 | with p = q and e > 1 the block equal to p decodes to zero |
| Rsa.RoundTripExactly | jxsmile19/smile-case1/main.c:984-1005 | all messages come back if and only if the primes differ or the exponent is one |
| Rsa.EncodeThenDecode | jxsmile19/smile-case1/main.c:984-1017 | key set-up, encoding and decoding as one call return the message if and only if each block is 7-bit, or zero but for a negative last character |
| Rsa.MainKeyFails | jxsmile19/smile-case1/main.c:962-1008 | the 16 bytes that are encoded are not whole blocks of three, and do not come back in blocks of two |
| AesField.SubInverse | jxsmile19/smile-case1/aes.h:42-79 | inv_S undoes S on all 256 bytes |
| AesSbox.SubIsAffineInverse | jxsmile19/smile-case1/aes.h:42-59 | section 5.1.1 of FIPS 197: every entry of S is the affine image of the byte's inverse in GF(2^8), zero taken to zero |
| AesSbox.MulIsFlat | jxsmile19/smile-case1/aes.h:216-234 | the product by shift and add equals the sum of the multiples by powers of x |
| AesField.MulDistributes | jxsmile19/smile-case1/aes.h:216-234 | the field product distributes over xor |
| AesField.GMul | jxsmile19/smile-case1/aes.h:216-234 | the loop computes the product in GF(2^8) |
| Aes.ColumnsInverse | jxsmile19/smile-case1/aes.h:237-284 | invMixColumns undoes mixColumns on every state |
| Aes.ShiftStateInverse | jxsmile19/smile-case1/aes.h:186-212 | invShiftRows undoes shiftRows |
| Aes.AddKeyInverse | jxsmile19/smile-case1/aes.h:148-160 | addRoundKey undoes itself |
| Aes.AddReversedKey | jxsmile19/smile-case1/aes.h:132-143 | round r of the decryption schedule is round 10 - r of the encryption schedule |
| Aes.RoundsMeet | jxsmile19/smile-case1/aes.h:315-395 | each decryption round returns to the state inside the matching encryption round |
| Aes.StateRoundTrip | jxsmile19/smile-case1/aes.h:315-395 | sections 5.1 to 5.3 of FIPS 197: the inverse cipher undoes the cipher, for every schedule |
| Aes.MessageRoundTrip | jxsmile19/smile-case1/aes.h:288-397 | the same for messages of whole blocks |
| AesLoops.LoadStateArray | jxsmile19/smile-case1/aes.h:82-89 | the state is the transpose of 16 input bytes |
| AesLoops.StoreStateArray | jxsmile19/smile-case1/aes.h:92-99 | the output is the transpose of the state; nothing else changes |
| AesLoops.RotateBytes | jxsmile19/smile-case1/aes.h:29-34 | rotating a word by whole bytes renumbers its bytes |
| AesLoops.KeyExpansion | jxsmile19/smile-case1/aes.h:101-145 | refuses null pointers and keys that are not 16 bytes; otherwise eK follows the recurrence of section 5.2 of FIPS 197 and dK is eK backwards by rounds |
| AesLoops.AddRoundKey | jxsmile19/smile-case1/aes.h:148-160 | xors each state byte with its byte of the round key |
| AesLoops.SubBytes | jxsmile19/smile-case1/aes.h:163-172 | substitutes every byte |
| AesLoops.InvSubBytes | jxsmile19/smile-case1/aes.h:175-183 | substitutes every byte back |
| AesLoops.ShiftRows | jxsmile19/smile-case1/aes.h:186-198 | load, rotate and store by words moves row i left by i places |
| AesLoops.InvShiftRows | jxsmile19/smile-case1/aes.h:201-212 | the same to the right |
| AesLoops.MixColumns | jxsmile19/smile-case1/aes.h:237-284 | in place, every column becomes the matrix times that column, for either matrix |
| AesLoops.AesEncrypt | jxsmile19/smile-case1/aes.h:288-343 | refuses bad parameters; otherwise the output is the encrypted blocks, even when it is the input buffer |
| AesVectors.Example | jxsmile19/smile-case1/aes.h:288-343 | the key and message of appendix C.1 of FIPS 197 give its ciphertext |
| Aes.EncryptParts | jxsmile19/smile-case1/aes.h:315-341 | a message in two parts of whole blocks is encrypted part by part, so each block on its own |
| AesLoops.AesDecrypt | jxsmile19/smile-case1/aes.h:346-397 | the same for decryption |
| AesLoops.EncryptThenDecrypt | jxsmile19/smile-case1/aes.h:288-397 | for every key of at most 16 bytes decryption restores the buffer |
| Md5.LoopEndsExactly | va_tr23/va_tr/md5.c:133-134 | the block loop ends if and only if the input stops short of the last index of its class modulo 64 |
| Md5.CountStep | va_tr23/va_tr/md5.c:124-127 | the two count words with their carry hold the bit length modulo 2^64 |
| Md5.Decode | va_tr23/va_tr/md5.c:167-179 | word k of a block is its four bytes from 4k on, least significant first |
| Md5.Transform | va_tr23/va_tr/md5.c:180-262 | updating the registers in turn and adding them to the state is the compression function that the rows below describe |
| Md5.Round1Selects | va_tr23/va_tr/md5.c:67-67 | F takes its second argument where the first is set and the third elsewhere |
| Md5.Round2Selects | va_tr23/va_tr/md5.c:68-68 | G takes its first argument where the third is set and the second elsewhere |
| Md5.Round3Selects | va_tr23/va_tr/md5.c:69-69 | H takes its first argument where the other two agree and its complement elsewhere |
| Md5.Round4Selects | va_tr23/va_tr/md5.c:70-70 | I takes its second argument where the third is set and the first is not, and its complement elsewhere |
| Md5.WordsOnce | va_tr23/va_tr/md5.c:188-257 | each round uses every message word exactly once, and in which step |
| Md5.StepInvertible | va_tr23/va_tr/md5.c:71-95 | from a step's result the register it replaced is found again, for every state, word and step |
| Md5Vectors.AbcDigest | va_tr23/va_tr/md5.c:110-262 | the digest of "abc" is the one of appendix A.5 of RFC 1321 |
| Md5Vectors.EmptyDigest | va_tr23/va_tr/md5.c:110-262 | so is the digest of the empty message |
| Md5.AbsorbExtend | va_tr23/va_tr/md5.c:180-262 | absorbing a message and a block is compressing the block into the message's state |
| Md5.IndexFromCount | va_tr23/va_tr/md5.c:122-122 | the buffer index from the low count word is the message length modulo 64 |
| Md5.Context.constructor | va_tr23/va_tr/md5.c:110-118 | a fresh context holds the empty message |
| Md5.Context.BlockLoop | va_tr23/va_tr/md5.c:133-134 | the loop absorbs all whole blocks |
| Md5.Context.FirstBlock | va_tr23/va_tr/md5.c:131-132 | the buffered tail and the input's start are absorbed as one block |
| Md5.Context.Update | va_tr23/va_tr/md5.c:119-142 | the context then stands for the message extended by the input |
| Md5.Context.PadMessage | va_tr23/va_tr/md5.c:145-151 | the two updates append exactly the padding of the message, its 64-bit length included |
| Md5.Context.Final | va_tr23/va_tr/md5.c:143-153 | the digest of the padded message, sections 3.1 to 3.5 of RFC 1321 |
| Md5.Encode | va_tr23/va_tr/md5.c:154-166 | words to bytes, least significant first |
| Md5.HashChunks | va_tr23/va_tr/md5.c:110-153 | for every split of a message into chunks shorter than 2^32 - 64 bytes, the digest of the message |
| PageTable.FrameOf | va_tr23/va_tr/limit.c:120-128 | of an entry's fields the mask keeps the 40 bits of the frame number and nothing else |
| PageTable.IndexOf | va_tr23/va_tr/limit.c:114-129 | the indices of the walk are the four 9-bit digits of the address |
| PageTable.MappedTranslates | va_tr23/va_tr/limit.c:282-337 | when the words at an address's digits lead from table to table to a last entry, the walk ends at that entry and the address translates to the entry's page, bits above 11 kept, and its own place |
| PageTable.TestedBits | va_tr23/va_tr/limit.c:136-136 | the present bit is bit 0, and clearing it changes nothing else |
| PageTable.VisitedExactly | va_tr23/va_tr/limit.c:228-250 | the pages visited are those before the size is reached or the excluded page comes |
| PageTable.WalkAgrees | va_tr23/va_tr/limit.c:109-129 | the four-level walk does not depend on present bits |
| PageTable.TranslateAgrees | va_tr23/va_tr/limit.c:282-337 | neither does v2p, for any address |
| PageTable.RestoreExactly | va_tr23/va_tr/limit.c:228-280 | clearing and writing back restores memory if and only if no present entry is visited twice |
| PageTable.SharedCase | va_tr23/va_tr/limit.c:228-280 | a range of 513 pages whose first and last share a present entry, which does not come back |
| PageTable.TreeUnshared | va_tr23/va_tr/limit.c:228-258 | in a tree of tables a range of at most 1000 pages, all mapped down to a last-level table, visits no entry twice, whatever else is empty |
| PageTable.EntriesDiffer | va_tr23/va_tr/limit.c:109-129 | where no two table pointers of one level share a frame, mapped pages with one last-level entry have one page number |
| PageTable.SparseTree | va_tr23/va_tr/limit.c:109-129 | an address space with a single mapped last-level table is such a tree |
| PageTable.PageNumbersDiffer | va_tr23/va_tr/limit.c:233-241 | the pages of a range have different page numbers, wrap-around included |
| PageTable.Limit.NonV2p | va_tr23/va_tr/limit.c:89-157 | saves the entry and clears its present bit; no other word or record changes |
| PageTable.OnePageReturns | va_tr23/va_tr/limit.c:89-224 | disabling one page and then walking again to write the saved word back leaves memory as it was |
| PageTable.Limit.LauncherNonV2p | va_tr23/va_tr/limit.c:228-265 | exactly the visited entries lose their present bit, and each record holds the word found; it stays inside the records if and only if the range has at most 1000 pages |
| PageTable.OverrunExactly | va_tr23/va_tr/limit.c:226-247 | a range has more pages than records if and only if its walk reaches page 1000 |
| PageTable.Limit.LaunchEnV2p | va_tr23/va_tr/limit.c:267-280 | the records are written back in order |
| PageTable.Limit.Trampoline | va_tr23/va_tr/limit.c:348-366 | every translation is the same before, between and after; when the walk does not reach page 1000, memory comes back if and only if no present entry is shared, always when the pages are mapped in a tree |
| CondBuffer.PutOk | smile_test/Enclave/TrustedLibrary/Thread.cpp:75-89 | putting into a ring that is not full keeps counters and contents consistent |
| CondBuffer.TakeOk | smile_test/Enclave/TrustedLibrary/Thread.cpp:91-104 | so does taking from one that is not empty |
| CondBuffer.CondBufferT.Produce | smile_test/Enclave/TrustedLibrary/Thread.cpp:82-85 | the assignments of the producer put one item |
| CondBuffer.CondBufferT.Consume | smile_test/Enclave/TrustedLibrary/Thread.cpp:98-100 | the assignments of the consumer take one item |
| CondBuffer.StepInv | smile_test/Enclave/TrustedLibrary/Thread.cpp:75-104 | every step keeps the ring consistent, the mutex with one holder, and each waiter with a wake-up to come |
| CondBuffer.NoDeadlock | smile_test/Enclave/TrustedLibrary/Thread.cpp:75-104 | some thread can move without a spurious wake-up unless all are done |
| CondBuffer.DoneEmpty | smile_test/Enclave/TrustedLibrary/Thread.cpp:75-104 | when all are done the ring is empty and all slots are zero |
| CondBuffer.StepWork | smile_test/Enclave/TrustedLibrary/Thread.cpp:75-104 | every step but a spurious wake-up brings the threads nearer to their end |
| CondBuffer.RunBound | smile_test/Enclave/TrustedLibrary/Thread.cpp:75-104 | a run of c consumers of l items has at most 16cl + 4c + 4 steps, and three more per spurious wake-up |
| CondBuffer.EveryRun | smile_test/Enclave/TrustedLibrary/Thread.cpp:41-104 | for every run, ring size, number of consumers and of items: consistent ring, no deadlock, empty at the end |
| Barrier.SbBarrier.Init | jxtest2/jxcode/sysbench-master/src/sb_barrier.c:37-55 | a zero count or failed primitives are refused |
| Barrier.SbBarrier.WaitHead | jxtest2/jxcode/sysbench-master/src/sb_barrier.c:58-87 | the last caller resets the count, runs the callback and advances the serial; others remember it |
| Barrier.SerialTells | jxtest2/jxcode/sysbench-master/src/sb_barrier.c:86-95 | in every reachable state the test of a waking thread tells exactly whether its round is still open |
| Barrier.StepInv | jxtest2/jxcode/sysbench-master/src/sb_barrier.c:58-96 | every step keeps count, serial and error consistent with who sleeps in which round |
| Barrier.NobodyLeavesEarly | jxtest2/jxcode/sysbench-master/src/sb_barrier.c:58-96 | no thread has left more rounds than any other has entered |
| Barrier.RoundResults | jxtest2/jxcode/sysbench-master/src/sb_barrier.c:64-95 | one caller per round runs the callback and returns -1 or the serial-thread result by its own verdict; every other caller returns -1 exactly when some callback up to that round failed, otherwise 0 |
| Barrier.SerialAtMostOneAhead | jxtest2/jxcode/sysbench-master/src/sb_barrier.c:66-88 | the serial is a sleeper's own or one ahead, and then the sleeper was signalled |
| Barrier.NoDeadlock | jxtest2/jxcode/sysbench-master/src/sb_barrier.c:58-96 | some thread can always enter or leave |
| Histogram.SbHistogram.Update | jxtest2/jxcode/sysbench-master/src/sb_histogram.c:99-113 | one event in the clamped bucket of one slot |
| Histogram.SbHistogram.FetchAndZero | jxtest2/jxcode/sysbench-master/src/sb_ck_pr.h:132-222 | a compare-and-swap loop: with other threads recording throughout, the value taken is exactly what left the cell, and the cell is left at zero |
| Histogram.RecordBalanced | jxtest2/jxcode/sysbench-master/src/sb_histogram.c:112-112 | recording keeps every bucket's balance |
| Histogram.TakeBalanced | jxtest2/jxcode/sysbench-master/src/sb_histogram.c:206-208 | so does taking a cell |
| Histogram.ArriveBalanced | jxtest2/jxcode/sysbench-master/src/sb_histogram.c:208-210 | so does adding the taken value to the array |
| Histogram.ResetBalanced | jxtest2/jxcode/sysbench-master/src/sb_histogram.c:281-283 | so does a checkpoint |
| Histogram.SweepCell | jxtest2/jxcode/sysbench-master/src/sb_histogram.c:202-211 | a swept cell holds only events recorded since the sweep began |
| Histogram.SweepDone | jxtest2/jxcode/sysbench-master/src/sb_histogram.c:202-211 | after the sweep all that was recorded before it is out of the slots |
| Histogram.SbHistogram.MergeIntermediate | jxtest2/jxcode/sysbench-master/src/sb_histogram.c:194-215 | conservation holds, the event count is the array's sum, and all that was recorded before the call has been collected |
| Histogram.Scan | jxtest2/jxcode/sysbench-master/src/sb_histogram.c:229-236 | the first bucket whose running count reaches the rank |
| Histogram.PercentileInside | jxtest2/jxcode/sysbench-master/src/sb_histogram.c:227-236 | for percentiles up to 100 there is one |
| Histogram.PercentileExactly | jxtest2/jxcode/sysbench-master/src/sb_histogram.c:225-238 | it is the bucket where the events so far first exceed that percentage of all events less half an event |
| Histogram.StaleCountExactly | jxtest2/jxcode/sysbench-master/src/sb_histogram.c:225-238 | with events counted that are in no bucket, the bucket found lies inside the array if and only if the rank does not exceed the events that are, for any percentile |
| Histogram.StaleCountAtHundred | jxtest2/jxcode/sysbench-master/src/sb_histogram.c:225-238 | for percentile 100, if and only if nothing extra was counted |
| Histogram.SbHistogram.GetPctCumulative | jxtest2/jxcode/sysbench-master/src/sb_histogram.c:241-261 | the percentile bucket of everything accumulated |
| Histogram.SbHistogram.GetPctCheckpoint | jxtest2/jxcode/sysbench-master/src/sb_histogram.c:264-289 | the same, after which the accumulated events are dropped and accounted for |
| Histogram.SbHistogram.GetPctIntermediate | jxtest2/jxcode/sysbench-master/src/sb_histogram.c:116-187 | the percentile bucket of what this call collected, which is then accumulated |
| BulkInsert.StatementSnoc | jxtest2/jxcode/sysbench-master/src/db_driver.c:1010-1017 | appending a row, with a comma unless it is the first, extends the statement |
| BulkInsert.InsertLogged | jxtest2/jxcode/sysbench-master/src/db_driver.c:1031-1034 | a sent statement adds its rows to those sent and uncommitted |
| BulkInsert.OnceExactly | jxtest2/jxcode/sysbench-master/src/db_driver.c:1026-1053 | over every sequence of calls, rows are sent or pending once, in order, if and only if no statement's commit failed |
| BulkInsert.FailedFlush | jxtest2/jxcode/sysbench-master/src/db_driver.c:1026-1053 | a failed flush leaves rows to be sent again if and only if its statement went out |
| BulkInsert.DbConn.Init | jxtest2/jxcode/sysbench-master/src/db_driver.c:923-967 | succeeds exactly when the connection can be used, the driver describes itself, the head fits and the buffer is obtained; the buffer then holds the head alone, otherwise nothing is set up |
| BulkInsert.DbConn.Next | jxtest2/jxcode/sysbench-master/src/db_driver.c:971-1022 | for every valid buffer, also after failures: statements go out only when the row does not fit, and exactly which; what was sent and what is pending is what was given plus the rows of failed commits; a failure leaves the rows sent once if and only if the statement, not the commit, failed; the copy ends behind the buffer if and only if a flush succeeded and the row does not fit alone behind the head |
| BulkInsert.DbConn.MakeRoom | jxtest2/jxcode/sysbench-master/src/db_driver.c:996-1008 | a row that does not fit is refused by an empty buffer and flushes one with rows |
| BulkInsert.DbConn.AddRow | jxtest2/jxcode/sysbench-master/src/db_driver.c:1010-1021 | the row is written inside the buffer and terminated |
| BulkInsert.DbConn.CommitIfDue | jxtest2/jxcode/sysbench-master/src/db_driver.c:1036-1047 | a commit goes out exactly when the last statement or enough rows ask for it |
| BulkInsert.DbConn.DoInsert | jxtest2/jxcode/sysbench-master/src/db_driver.c:1026-1053 | sends the statement of exactly the pending rows, then a commit exactly when due; on failure says which of the two reached the database, and keeps the rows |
| BulkInsert.DbConn.Done | jxtest2/jxcode/sysbench-master/src/db_driver.c:1057-1070 | without a buffer nothing happens; success leaves no row unsent or, where commits are needed, uncommitted, and every row sent once, in order, if and only if no commit failed on the way; after a failure the buffer stays open |
| BulkInsert.InsertAll | jxtest2/jxcode/sysbench-master/src/db_driver.c:923-1070 | on a working connection every row is sent once, in order, in well-formed statements, and committed, if and only if head and rows fit; a head or first row that does not is refused, a later row that does not is copied behind the buffer |
| BulkInsert.OverrunCase | jxtest2/jxcode/sysbench-master/src/db_driver.c:971-1022 | a short row and then one as long as the packet end behind the buffer |
| BulkInsert.ResendCase | jxtest2/jxcode/sysbench-master/src/db_driver.c:1026-1070 | a row whose commit fails once, and which a second call to finish puts into the database twice |

## Left out

- GuestVirt.GuestMemory.ReadHelper: a page access that fails is taken to move nothing; a partial copy before the failure is not modelled, nor is the exception record that a failed translation fills in.
- GuestVirt.GuestMemory.WriteHelper: the same, and dirty-page tracking is not modelled.
- Mmio.Vcpu.OnePage: address translation, the cached-translation shortcut and the device bus are parameters; writes and reads are one method with a flag, as in the operations table of the code.
- Mmio.Vcpu.WholeAccess: accesses are of 1 byte to a page; user space is taken to fill in the bytes that it supplies.
- Tsc.Kvm.Locked: generation numbers do not wrap, last_guest_tsc is not kept, and the offset and nanosecond conversions are arbitrary functions.
- Tsc.RunInv: vCPUs are created but never destroyed.
- ExceptionQueue.Vcpu.SetVcpuEvents: interrupt, NMI, shadow and SMM state, which the same call also sets, is left out.
- ExceptionQueue.Vcpu.InjectPendingEvent: guest mode, the window-enabling hooks and what entering SMM does are left out; the answers of the hooks are parameters.
- ExceptionQueue.Vcpu.DeliverPayload: the trap-bit and active-low masks are parameters, because the header that defines them is not part of this model.
- Solovay.ProbablePrime: how likely a composite is to pass is not stated; what rand returns is a parameter.
- Rsa.EncodeThenDecode: two primes and a coprime exponent are preconditions; the search for the exponent is left out.
- Rsa.EncodeMessage: what a run that leaves the arrays does is not modelled; `Rsa.StaysInsideExactly` says when one does. Reading the message from a file and printing are left out.
- AesLoops.ShiftRows: rotating a 32-bit word by zero shifts by 32 places, which C leaves undefined; it is taken to be the identity, which the code relies on.
- AesLoops.AesEncrypt: printing of error messages is left out. The block loops count in a signed int, which overflows from lengths of 2^31 on; the model counts without bound.
- AesLoops.AesDecrypt: the same.
- Md5.Transform: the 64 unrolled steps are the turns of a loop over tables of shifts, word numbers and sine constants read off the source.
- Md5.Context.Update: clearing of temporaries and reading of the file to hash are left out.
- PageTable.Limit.Trampoline: finding the process (a missing one is not modelled), TLB flushes, timing and faults on words that are not mapped are left out; a word never written reads as zero. The model stops before a record behind the array is written.
- CondBuffer.EveryRun: the enclave's mutex and condition variables are atomic steps, and a signal wakes an arbitrary waiter.
- Barrier.RoundResults: each critical section is one atomic step under the mutex; exactly init_count threads take part.
- Histogram.SbHistogram.constructor: the event count starts at zero, although `sb_histogram_init` never sets it and `sb_histogram_new` hands it memory that is not cleared.
- Histogram.Scan: floating-point rounding of the rank, the logarithm that picks a bucket and the exponential that turns it back are left out; the rank is computed over the reals.
- Histogram.SbHistogram.FetchAndZero: other threads make finitely many recordings, without which the retry loop need not end; counters do not wrap at 2^64.
- BulkInsert.DbConn.Init: whether the buffer is obtained is a parameter.
- BulkInsert.DbConn.Next: the model stops before a copy that would end behind the buffer, and reports where it would end. Strings have no embedded terminator and their lengths are passed correctly; what the database driver answers is a parameter, and a statement or commit it reports as failed is taken to have had no effect.
- ecall_increase_counter, the histogram printout, kernel PIO string operations, enclave bridges, inline assembly, timing, device registration and ioctl dispatch are left out.
