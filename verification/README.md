# Verified model of the CC3200 driver library

The driver library of the CC3200 wireless microcontroller is mostly thin register access. This
project models the seven drivers that carry real state, loops and modular arithmetic, each
on a model of the hardware it drives, and proves what they promise their callers - or, where
they do not keep a promise, exactly when they do.

| driver | files | what is proved |
|---|---|---|
| calendar clock (`driverlib/prcm.c`) | `RtcClock`, `RtcDriver`, `RtcGuarantees` | a clock kept as a reference to a 48-bit counter reads correctly over any run of calls, with the counter running on during every register access; the alarm is exact |
| flash programming (`driverlib/flash.c`) | `FlashArray`, `FlashBits`, `FlashDriver`, `FlashGuarantees` | the write-buffer form programs the same flash as the word-at-a-time form; success means that the data reads back |
| spin lock (`driverlib/hwspinlock.c`) | `SpinLockRegister`, `SpinLockProtocol`, `SpinLockMachine`, `SpinLockDriver` | mutual exclusion in every reachable state of every interleaving with the network processor |
| interrupt controller (`driverlib/interrupt.c`) | `Nvic`, `NvicDriver` | packed registers refine a table of interrupts over any run of calls |
| AES (`driverlib/aes.c`) | `BlockCipher`, `CryptoEngine`, `InPlace`, `AesDriver`, `AesMac`, `AesAuth`, `AesClient` | outputs of any length are those of the modes of NIST SP 800-38A; decryption restores the message; authenticated and MAC modes take exactly which blocks |
| DES (`driverlib/des.c`) | `DesDriver` with the same engine | polling loses no block |
| SHA and MD5 (`driverlib/shamd5.c`) | `HashFunction`, `HashEngine`, `HashFeeding`, `HashPlan`, `HashDriver`, `HashGuarantees`, `HashOperations`, `HashClient` | digests and HMAC of RFC 2104 by both key paths; exactly which messages are fed faithfully |

`Arithmetic` holds facts about division that several of them need, `Wrappers` the option type.

Every driver function that changes registers or arrays is a method proved against a function
on plain values (`Effect`, `ProgramWords`, `Transform`, `Run`, ...); the results over all
inputs and all runs are lemmas about those functions. Every busy-wait is a loop that polls the
modelled hardware, which may take any number of polls.

## Where a promise is not kept

* `HashFeeding.FeedsExactly`: the odd bytes at the end of a hashed message are written to the
  register of the last whole word instead of the next one. A message is hashed faithfully, for
  all contents, if and only if its length is a multiple of four or exceeds the whole 64-byte
  blocks by less than four bytes.
* `AesMacFeeding.MacFeedsExactly`: the offset of the last, partial block of a MAC is the square of
  the block count, modulo 2^32. The message is fed, for all contents, if and only if
  its length is a multiple of 16, or it has no whole block, or it has sixteen of them.
* `AesAuth.LoopEndsExactly`: the 32-bit counters of the authenticated mode end if and only if the length is at
  most 2^32 - 16; `AesAuth.AESDataProcessAE` therefore requires such lengths.
* `InPlace.PassesInPlaceExactly`: within one array AES and DES processing stores the mode's transform, for every cipher and
  all contents, if and only if the message is at most one block, or the destination is not ahead of the
  source, or the two ranges are apart; otherwise source bytes are overwritten before they are read.
* `CipherModes.RoundTripsExactly`: in ECB and CBC only whole blocks survive encryption and decryption, since
  ciphertext bytes of the zero-padded rest are dropped.
* `Nvic.PromiseKeptExactly`: clearing a pending PendSV or SysTick reads INT_CTRL, where the pending bit shows as the
  set bit, and writes it back together with the clear bit. Section B3.2.4 of the ARMv7-M
  Architecture Reference Manual leaves the outcome open, so the call can be relied on if and only if
  the exception is not pending.
* `RtcGuarantees.AlarmOnTimeExactly`: the counter's period is two calendar periods. The alarm goes off when the clock next
  begins to show its time if and only if the counter is not in the calendar period that follows the match value.
* `RtcGuarantees.OcrWriteKeepsClockExactly`: `driverlib/prcm.c:1506-1508` reserves only the second retention register for the clock,
  which also keeps its use bit and fraction in the first. A write of the first keeps a running clock if and only if it keeps those bits, a write of the second if and only if it changes nothing.
* `FlashDriver.StraddlesExactly`: the guard of the non-blocking flash driver lets an over-long range through when its end
  wraps round into the first block, and an empty request passes unless its address starts a block.
* `HashGuarantees.ProcessedKeyWorksExactly`: setting a processed key leads to the HMAC under its key, for every hash, key and
  text, if and only if the mode asks neither for key processing nor for the algorithm's initial value. The call clears
  neither bit. A key that was set but not used leaves the first behind, and then the processed key is used as a
  key (`HashClient.ProcessedKeyTakenForKey`). After `SHAMD5HMACPPKeyGenerate` the bit has cleared itself, and
  configuring the module again in between makes no difference (`HashClient.HmacWithProcessedKey`).

## What is assumed of the hardware

* The counter is 48 bits wide and goes on for any number of ticks at every delay; a latch
  command copies it at one tick.
* Flash programming can only clear bits; a protected 2 kB block, or one outside the array, is left alone; status bits
  report both kinds of refusal. A fault of the supply, of programming or of erasing may occur with every operation
  and leaves any contents. A page is 1 kB, the value of `FLASH_CTRL_ERASE_SIZE`, although
  `driverlib/flash.c:176` speaks of 2 kB.
* A semaphore field accepts only 00 once a bit of it is set (`inc/hw_common_reg.h:235-251`), and 11 written to a
  free field does nothing. The network processor claims like Apps and clears only what it holds. The acquire functions take a 12-bit
  bit position, 512 for the one lock the device defines; the model takes the 8 bits that the release
  function takes, since an ARM shift looks at the low byte of its amount only.
* The cipher is an unspecified permutation under its key and the counter of CTR mode has an unspecified step; the tag is
  an unspecified function of what was absorbed, and the compression function is unspecified. A block engine has one
  input and one output buffer.
* The hash engine starts on a block once as many data words have been written as it needs. The mode bits clear
  themselves as `inc/hw_shamd5.h:487-560` says. Key processing sets the digest count to 64: `SHAMD5HMACKeySet` does not
  write that register, and the headers do not say so.

## Model

| member | source | states |
|---|---|---|
| FlashArray.ProgramWordsEffect | driverlib/flash.c:445-465 | for every aligned address and count, wrap-around included: each target word is combined exactly once with its own datum, no other word changes, requests come in order, and the status bits report exactly the locked targets and the raised bits |
| FlashArray.CommitIsProgramWords | driverlib/flash.c:401-436 | committing a contiguous run of the write buffer equals programming its words one by one |
| FlashBits.AndBits | inc/hw_flash_ctrl.h:1132-1140 | combining a word with its datum leaves exactly the bits that are 1 in both |
| FlashBits.ProgramBits | driverlib/flash.c:375-486 | bit by bit, for every aligned address and count: a bit is 1 afterwards if and only if it was 1 before and every datum that reached its unprotected word has it as 1, so no 0 bit ever becomes 1 |
| FlashBits.ReturnsZeroExactly | driverlib/flash.c:472-485 | 0 if and only if every word a datum is meant for is unprotected, in the array, and holds a 1 wherever the datum has one; -1 otherwise |
| FlashDriver.LoadBlock | driverlib/flash.c:413-424 | the inner loop fills exactly the registers from the address's own up to the end of the block or the data, with the next data words in order |
| FlashDriver.CommitStretch | driverlib/flash.c:401-436 | one round of the outer loop extends the word-at-a-time result by exactly the words it loaded |
| FlashDriver.FlashProgramWordwise | driverlib/flash.c:445-465 | unless there was a fault, the word-at-a-time branch ends in the specified flash, whose bits are given outright; it returns 0 exactly when there was no fault and the transfer could be made, and -1 otherwise |
| FlashDriver.FlashProgram | driverlib/flash.c:375-486 | the buffered branch meets the same specification, bits and return value, for every aligned address and count |
| FlashDriver.StraddlesExactly | driverlib/flash.c:541-552 | which requests the one-block guard lets through, as an if-and-only-if over all addresses and counts, with the wrap-around and empty cases |
| FlashDriver.FlashProgramNonBlocking | driverlib/flash.c:520-583 | a range is accepted exactly when it lies in one block; then one buffer command is issued and the flash settles in the blocking driver's result; a rejected request issues nothing |
| FlashDriver.FlashErase | driverlib/flash.c:187-227 | the words of the page become all ones unless it is protected or outside the array, no other word changes, and the return value says which, or that there was a fault |
| FlashGuarantees.SuccessExactly | driverlib/flash.c:472-485 | without a fault programming returns 0 if and only if no target is locked and no datum asks a 0 to become a 1 |
| FlashGuarantees.SuccessMeansReadBack | driverlib/flash.c:345-373 | on unlocked targets the return value tells exactly whether the data reads back |
| FlashGuarantees.ErasePagesEffect | driverlib/flash.c:187-227 | erasing pages resets exactly the unlocked words of those pages and reports an access violation exactly when one is locked |
| FlashGuarantees.EraseThenProgram | driverlib/flash.c:375-486 | erasing the touched pages and then programming succeeds and reads back, whatever the flash held |
| RtcDriver.Hib.PRCMHIBRegRead | driverlib/prcm.c:1878-1894 | returns the value at the access, however long the delay after it |
| RtcDriver.Hib.PRCMHIBRegWrite | driverlib/prcm.c:1911-1922 | changes the addressed register only, and the latch command copies the counter at that tick |
| RtcDriver.Hib.RTCUseSet | driverlib/prcm.c:144-153 | sets the use bit and nothing else |
| RtcDriver.Hib.RTCU16MSecRegWrite | driverlib/prcm.c:186-195 | replaces the ten fraction bits and nothing else |
| RtcDriver.Hib.PRCMSlowClkCtrGet | driverlib/prcm.c:1224-1242 | returns the counter at one tick between call and return: the two half reads never tear |
| RtcDriver.Hib.PRCMSlowClkCtrMatchSet | driverlib/prcm.c:1286-1295 | the match registers hold the value modulo 2^48 and no other register changes |
| RtcDriver.Hib.PRCMSlowClkCtrMatchGet | driverlib/prcm.c:1307-1320 | returns what the match registers hold |
| RtcDriver.Hib.PRCMHibernateIntervalSet | driverlib/prcm.c:1103-1131 | programs the latched counter plus the interval, modulo 2^64, in two registers |
| RtcDriver.Hib.PRCMRTCInUseSet | driverlib/prcm.c:1517-1521 | sets the use bit, once for all |
| RtcDriver.Hib.PRCMRTCSet | driverlib/prcm.c:1564-1583 | stores the reference for the tick it latched during the call, or does nothing while the use bit is clear |
| RtcDriver.Hib.PRCMRTCGet | driverlib/prcm.c:1597-1617 | seconds times 1024 plus fraction is the clock's reading at a tick during the call; zeros while the use bit is clear |
| RtcDriver.Hib.PRCMRTCMatchSet | driverlib/prcm.c:1632-1651 | programs the alarm, or does nothing while the use bit is clear |
| RtcDriver.Hib.PRCMRTCMatchGet | driverlib/prcm.c:1665-1685 | seconds times 1024 plus fraction is what the clock shows when the counter has the match value; zeros while the use bit is clear |
| RtcClock.RegisterLayout | driverlib/prcm.c:134-195 | the clock reading, the use bit and the match values in terms of the bits of the registers |
| RtcGuarantees.SetThenGet | driverlib/prcm.c:1564-1611 | a time set at one tick reads at another as that time plus the 1/1024 s periods between them, modulo 2^42, whatever has wrapped |
| RtcGuarantees.ClockOverRun | driverlib/prcm.c:1564-1611 | the same over whole runs: any calls, a set, any calls that do not set |
| RtcGuarantees.EffectFrames | driverlib/prcm.c:134-195 | each call keeps the reserved bits, the hardware's half word and a set use bit; only PRCMRTCSet moves the reference; nothing happens while the use bit is clear |
| RtcGuarantees.RunFrames | driverlib/prcm.c:134-195 | the same over any run, with the use bit set if and only if it was or some call set it |
| RtcGuarantees.MatchStored | driverlib/prcm.c:1632-1651 | no bit of the alarm is lost in the registers |
| RtcGuarantees.AlarmIsLeast | driverlib/prcm.c:1632-1651 | the match value is the least counter value at which the clock reads the time asked for |
| RtcGuarantees.MatchRoundTrip | driverlib/prcm.c:1665-1685 | the alarm reads back after any run of calls that set neither time nor alarm |
| RtcGuarantees.AlarmOnTimeExactly | driverlib/prcm.c:1619-1651 | when the alarm goes off at the next moment the clock begins to show its time: an if-and-only-if over the counter's position |
| RtcGuarantees.AlarmComes | driverlib/prcm.c:1619-1651 | both moments exist whenever the alarm is set |
| RtcGuarantees.IntervalWakes | driverlib/prcm.c:1103-1131 | the wake-up match is the counter value exactly that many ticks after the latch |
| RtcGuarantees.OcrWriteKeepsClockExactly | driverlib/prcm.c:1337-1341 | which values written to either retention register keep a running clock |
| SpinLockRegister.WriteIsFieldwise | inc/hw_common_reg.h:235-251 | the word-wide register write obeys the two-bit rule on every field |
| SpinLockRegister.FieldBits | inc/hw_common_reg.h:235-251 | a field in terms of its two bits of the word |
| SpinLockRegister.AppsClaimWrites | driverlib/hwspinlock.c:94-101 | the claim word takes a free field and touches nothing else |
| SpinLockRegister.ClearWrites | driverlib/hwspinlock.c:199-200 | the release word frees its own field and touches nothing else |
| SpinLockProtocol.MutualExclusion | driverlib/hwspinlock.c:77-202 | in every reachable state of every interleaving no lock is held by both processors and a held lock names its holder |
| SpinLockProtocol.NoLeftovers | driverlib/hwspinlock.c:121-202 | between Apps calls a lock names Apps if and only if Apps holds it |
| SpinLockProtocol.HeldUntilRelease | driverlib/hwspinlock.c:77-105 | once an acquire has returned Apps owns the lock until its own release begins |
| SpinLockProtocol.AppsTouchesOwnLock | driverlib/hwspinlock.c:77-202 | no access of a call changes the owner of another lock |
| SpinLockProtocol.NwpRespectsApps | inc/hw_common_reg.h:235-251 | no step of the network processor takes a lock from Apps or gives one to it |
| SpinLockProtocol.ClaimOnFreeWins | driverlib/hwspinlock.c:99-103 | a claim on a free lock succeeds whatever the network processor does before the poll |
| SpinLockMachine.StepSim | driverlib/hwspinlock.c:77-202 | every step on the register is a step of the protocol |
| SpinLockMachine.RunSim | driverlib/hwspinlock.c:77-202 | every run on the register has a run of the protocol beside it |
| SpinLockWord.SemaphoreLaws | inc/hw_common_reg.h:235-251 | the 32-bit register satisfies the laws the protocol needs |
| SpinLockWord.DeviceMutualExclusion | driverlib/hwspinlock.c:77-202 | on the device's register no field is ever 11 and no lock is ever held by both |
| SpinLockWord.DeviceHeldUntilRelease | driverlib/hwspinlock.c:77-105 | an acquired lock's field stays with Apps until its release begins |
| SpinLockWord.ViewBits | inc/hw_common_reg.h:235-251 | which two bits of the word name which owner |
| SpinLockDriver.BitPosIs | driverlib/hwspinlock.c:86-90 | the field position is the number in bits 23 to 16 of the lock identifier |
| SpinLockDriver.HwSpinLockAcquire | driverlib/hwspinlock.c:77-105 | extends the run of the machine by its own and the network processor's steps, ends with Apps holding the lock, changes no other field |
| SpinLockDriver.HwSpinLockTryAcquire | driverlib/hwspinlock.c:121-170 | likewise a run of the machine; at least one and at most max(1, retries) claim writes; 0 exactly when Apps owns the lock on return, and then holds it; -1 only after all retries |
| SpinLockDriver.HwSpinLockRelease | driverlib/hwspinlock.c:183-202 | likewise a run of the machine; the field is free when Apps owned it, the register is left alone otherwise, no other field changes |
| SpinLockDriver.HwSpinLockTestCurrent | driverlib/hwspinlock.c:218-235 | returns the field, which names its owner |
| SpinLockDriver.ClaimAndTest | driverlib/hwspinlock.c:99-103 | one round of the acquire loops: a claim and a test, with the network processor running before each |
| Nvic.WithByteIsMask | driverlib/interrupt.c:413-418 | masking a byte out of a priority register and or-ing another in replaces that byte |
| Nvic.WithByteBytes | driverlib/interrupt.c:413-418 | and no other byte of it |
| Nvic.ByteIs | driverlib/interrupt.c:413-418 | bytes and their weights in numbers |
| Nvic.BankAndBit | driverlib/interrupt.c:512-513 | interrupt n is 16 + 32 times its bank plus its bit, so no two share a bit |
| Nvic.LevelKept | driverlib/interrupt.c:401-421 | the implemented bits keep each of the eight priority levels, for exactly the interrupts with a programmable priority |
| Nvic.LevelReadsBack | driverlib/interrupt.c:401-445 | each level that is set reads back |
| Nvic.CallKeepsPromise | driverlib/interrupt.c:401-706 | each call changes its own interrupt's record as promised and no other record, unless it must clear a pending bit of INT_CTRL |
| Nvic.PromiseKeptExactly | driverlib/interrupt.c:675-706 | whatever the hardware does in that case, the promise is kept if and only if there is no such conflict |
| Nvic.EffectValid | driverlib/interrupt.c:401-421 | the priority registers keep only implemented bits |
| Nvic.RunRefinesTable | driverlib/interrupt.c:401-706 | after any run of valid calls of which none conflicts the packed registers decode to the table the same calls produce |
| Nvic.PeripheralsNeverConflict | driverlib/interrupt.c:610-708 | a run of calls on peripheral interrupts has no conflict |
| NvicDriver.Controller.IntPrioritySet | driverlib/interrupt.c:401-421 | byte n mod 4 of register n / 4 becomes the top three bits of the priority, or 0 for a fixed priority; its other bytes and everything else stay |
| NvicDriver.Controller.IntPriorityGet | driverlib/interrupt.c:433-445 | returns byte n mod 4 of register n / 4, the priority in the record |
| NvicDriver.Controller.IntEnable | driverlib/interrupt.c:461-518 | for n from 16 on sets bit (n - 16) mod 32 of bank (n - 16) / 32 and nothing else; for the faults and SysTick the bit of their own register |
| NvicDriver.Controller.IntDisable | driverlib/interrupt.c:533-590 | clears that bit and nothing else |
| NvicDriver.Controller.IntPendSet | driverlib/interrupt.c:610-658 | for n from 16 on sets bit (n - 16) mod 32 of pending bank (n - 16) / 32 and nothing else; NMI, PendSV and SysTick by INT_CTRL, read and written back as a whole |
| NvicDriver.Controller.IntPendClear | driverlib/interrupt.c:675-708 | clears that bit and nothing else; a pending PendSV or SysTick is left to what the hardware makes of a set and a clear at once |
| BlockEngine.TransformIsBlocks | driverlib/aes.c:802-829 | processing block by block with a zero-padded rest is the joined output of the padded message's blocks, cut to its length |
| BlockEngine.OutBlockAt | driverlib/aes.c:802-829 | every output block is the engine's output for its own input block and chaining value |
| BlockEngine.EngineRoundTrip | driverlib/aes.c:782-839 | an engine that undoes another on blocks undoes it on messages |
| CipherModes.ModeEquations | driverlib/aes.c:71-95 | every output block satisfies the equation of its mode in sections 6.1, 6.2, 6.3 and 6.5 of NIST SP 800-38A: the cipher applied to what the standard says, and a bytewise exclusive-or with what it says |
| CipherModes.MessageEquations | driverlib/aes.c:782-839 | the same for the bytes of a message of any length: each block, and the zero-padded rest, in terms of the bytes before it, with the chaining value that is left |
| CipherModes.ModeInverts | driverlib/aes.c:71-95 | the decrypting engine undoes the encrypting one in every mode, for every cipher |
| CipherModes.ModeRoundTrip | driverlib/aes.c:782-839 | decryption from the same initial vector restores the message: any length in CFB and CTR, whole blocks in ECB and CBC |
| CipherModes.RoundTripsExactly | driverlib/aes.c:816-829 | and for no other length: an if-and-only-if over mode and length, for all ciphers and messages |
| CryptoEngine.Device.WaitInput | driverlib/aes.c:735-737 | the poll for the input buffer ends, with the engine having done what it could |
| CryptoEngine.Device.WaitOutput | driverlib/aes.c:616-618 | the poll for the output buffer ends, likewise |
| AesDriver.AESIVSet | driverlib/aes.c:364-378 | replaces the chaining value only |
| AesDriver.AESConfigSet | driverlib/aes.c:143-208 | replaces the configuration and keeps the save-context flag |
| AesDriver.AESDataLengthSet | driverlib/aes.c:463-475 | writing the two halves sets the 64-bit length and starts a context |
| AesDriver.AESAuthDataLengthSet | driverlib/aes.c:500-511 | sets the additional data's length only |
| AesDriver.AESTagRead | driverlib/aes.c:423-437 | stores the tag of what the engine has taken, and nothing else |
| AesDriver.AESDataWrite | driverlib/aes.c:718-756 | one zero-padded block goes in once there is room; a length outside 1 to 16 is ignored |
| AesDriver.AESDataRead | driverlib/aes.c:596-638 | the first bytes of the next output block are stored and no others change; a length outside 1 to 16 is ignored |
| AesDriver.AESDataProcess | driverlib/aes.c:781-839 | for every length below 2^32 and every position of the two ranges the arrays go through the rounds of one pass; when the overlap is safe the destination receives the mode's transform of the source, nothing outside changes, and the chaining value is the mode's |
| InPlace.MidwayNext | driverlib/aes.c:802-829 | what each round of a safe pass keeps: done part, part still to come and unread source |
| InPlace.PassIsTransform | driverlib/aes.c:802-829 | a safe pass stores the mode's transform of the message and nothing else, and the engine takes the message's blocks |
| InPlace.PassesInPlaceExactly | driverlib/aes.c:802-829 | within one array that holds for all engines and contents if and only if the overlap is safe |
| AesMacFeeding.OffsetRight | driverlib/aes.c:883-889 | the driver's tail offset is right for block counts 0 and 16 only |
| AesMacFeeding.MacFeedsExactly | driverlib/aes.c:874-890 | for which lengths the whole message is fed for all contents, as an if-and-only-if |
| AesAuth.AESDataMAC | driverlib/aes.c:860-911 | the engine takes exactly the blocks of the feeding function, for the good lengths those of the message, and the tag is that of these blocks |
| AesAuth.LoopEndsExactly | driverlib/aes.c:975-998 | the loops end if and only if the length is at most 2^32 - 16 |
| AesAuth.AESDataProcessAE | driverlib/aes.c:950-1015 | the engine takes all additional blocks and then all data blocks, each once and in order; one output block is stored for each in one pass; the tag of what was taken is stored after that, wherever it is to go |
| AesClient.RunMode | driverlib/aes.c:143-839 | configure, set the vector, process: every 16 bytes of the destination, and the rest, satisfy the equation of the mode that was configured |
| AesClient.EncryptThenDecrypt | driverlib/aes.c:364-839 | encrypting in place, resetting the vector and decrypting restores the array |
| DesDriver.DESDataWriteNonBlocking | driverlib/des.c:355-402 | true exactly when the length is 1 to 8 and the status read sees the input buffer free; what is written then, and that nothing is otherwise |
| DesDriver.DESDataReadNonBlocking | driverlib/des.c:243-287 | true exactly when the length is 1 to 8 and the status read sees an output block; what is stored then, and that nothing is otherwise |
| DesDriver.DESDataWrite | driverlib/des.c:417-457 | one zero-padded block goes in once there is room |
| DesDriver.DESDataRead | driverlib/des.c:303-340 | the first bytes of the next output block are stored |
| DesDriver.PollBlock | driverlib/des.c:505-525 | after the polls neither non-blocking call can fail |
| DesDriver.Process | driverlib/des.c:480-567 | the polled version and the one built from the blocking calls meet one specification |
| DesDriver.DESDataProcess | driverlib/des.c:480-567 | no ignored result is ever false; the arrays go through the rounds of one pass, which stores the mode's transform when the overlap is safe, for every length |
| HashFunction.PaddingUnique | inc/hw_shamd5.h:522-527 | the padding is 0x80, zero bytes and the eight bytes of the length; it is the only one of that form and the shortest that ends a block |
| HashFunction.DigestIs | driverlib/shamd5.c:796-839 | the digest is that of section 6 of FIPS 180-4: the padded message compressed block by block from the initial value |
| HashFunction.HmacIs | driverlib/shamd5.c:874-918 | HMAC is the digest of section 2 of RFC 2104, for the key with each of its 64 bytes exclusive-ored with 0x36 and with 0x5c |
| HashFunction.DigestFrom | driverlib/shamd5.c:920-940 | a digest may be continued from the state after its first block |
| HashFunction.HmacFromStates | driverlib/shamd5.c:920-940 | HMAC of section 2 of RFC 2104 from the two states of a processed key |
| HashEngine.RunTakes | driverlib/shamd5.c:692-762 | the engine takes exactly the bytes it is run on, in order |
| HashEngine.RunMeans | driverlib/shamd5.c:388-399 | a run that closes the hash amounts to hashing all of its bytes after what came before |
| HashFeeding.FeedsExactly | driverlib/shamd5.c:712-762 | for which lengths every message is fed faithfully, whatever the registers held, as an if-and-only-if |
| HashDriver.SHAMD5DataWrite | driverlib/shamd5.c:507-530 | the sixteen registers hold the block, written only when the input is ready |
| HashDriver.SHAMD5DataWriteMultiple | driverlib/shamd5.c:677-763 | the engine ends in its run on the fed bytes, for every length |
| HashOperations.SHAMD5ResultRead | driverlib/shamd5.c:557-653 | as many bytes of the digest as the algorithm has are stored, and no others change |
| HashOperations.SHAMD5DataProcess | driverlib/shamd5.c:796-839 | with a plain configuration the result is the digest of the fed bytes |
| HashOperations.SHAMD5HMACProcess | driverlib/shamd5.c:874-918 | the result is the HMAC of the fed bytes, with a raw or a processed key in the registers |
| HashOperations.SHAMD5HMACPPKeyGenerate | driverlib/shamd5.c:942-995 | with a configuration for HMAC the array receives the processed key, and the bit that asked for it is clear afterwards |
| HashOperations.SHAMD5HMACKeySet | driverlib/shamd5.c:1015-1038 | the key is in the digest registers and the three mode bits are set |
| HashOperations.SHAMD5HMACPPKeySet | driverlib/shamd5.c:1060-1088 | likewise with a count of 64, and with the key-processing bit as it was |
| HashGuarantees.EndTakes | driverlib/shamd5.c:692-762 | an operation takes exactly its message |
| HashGuarantees.ProcessedKeyIs | driverlib/shamd5.c:942-995 | a processed key is the two states after those key blocks, the outer one first |
| HashGuarantees.PlainDigest | driverlib/shamd5.c:796-839 | an operation in a plain mode leaves the digest of its message |
| HashGuarantees.KeyDigest | driverlib/shamd5.c:1015-1038 | an operation that processes its key leaves the HMAC of its message |
| HashGuarantees.ContinuedDigest | driverlib/shamd5.c:1060-1088 | an operation that goes on from a processed key leaves the same HMAC |
| HashGuarantees.ProcessedKeyWorksExactly | driverlib/shamd5.c:1060-1088 | in which modes setting a processed key leads to the HMAC under its key, as an if-and-only-if over all hashes, keys and texts |
| HashClient.HmacWithKey | driverlib/shamd5.c:874-1038 | configure, set key, process: HMAC of RFC 2104 of the fed bytes, for the good lengths of the message |
| HashClient.HmacWithProcessedKey | driverlib/shamd5.c:874-1088 | configure, process key, set processed key, process: the same result, with or without configuring again |
| HashClient.ProcessedKeyTakenForKey | driverlib/shamd5.c:1020-1088 | what a leftover key-processing bit leads to |
| HashClient.HashMessage | driverlib/shamd5.c:425-839 | configure, process: the digest of the fed bytes, for the good lengths of the message |

## Left out

- FlashDriver.FlashProgram: requires an idle controller with an empty write buffer, which the code relies on without checking it; so do the other flash functions. Addresses are whole 32-bit values although the address register implements fewer bits.
- FlashDriver.FlashProgramNonBlocking: leaves out counts so close to 2^32 that the range wraps round into its first block, which the guard lets through (FlashDriver.StraddlesExactly); then the outer loop issues a second command while the first is in progress, and what the hardware does is not described.
- Mass erase, the non-blocking erase and FlashProtectGet are single register writes and reads.
- RtcDriver.Hib.PRCMRTCMatchSet: the two operands of the subtraction are read in a fixed order; the reads change nothing, so the order does not matter.
- PRCMSlowClkCtrFastGet: its auto-latch hardware is not described well enough to model. Register access from two contexts at once is not modelled: each call runs alone, with the counter ticking.
- SpinLockDriver.HwSpinLockAcquire: it ends only if the other processor does not keep the lock for ever; the field `patience` of the register class bounds how often it may still run before it lets go of its locks.
- SpinLockDriver.HwSpinLockTestCurrent: the previous-owner half of HwSpinLockTest reads registers that no code here maintains.
- Nvic.RunRefinesTable: the write-one banks are sets of bit numbers.
- AesDriver.AESDataProcess: the engine's buffers are empty when a message begins, which the code relies on without checking it (so for DES and the other AES operations). The order of the four data registers and the byte order within a word are abstracted to a block of bytes, alike for input and output. XTS, F8, F9 and ICM modes are not modelled, nor is a length register of zero meaning no limit.
- AesAuth.AESDataMAC: the save-context flag that the wait relies on is a precondition, as configuring it is left to the caller; the memory the wrong tail offset reaches must be readable.
- AesAuth.AESDataProcessAE: the save-context flag likewise.
- AESKey1Set, AESKey2Set, AESKey3Set, DESKeySet: a key is part of the unspecified cipher.
- HashOperations.SHAMD5HMACKeySet: the sixteen register writes of a key are one step, as they are for HashOperations.SHAMD5HMACPPKeySet; what they do to a hash in progress, which the source advises against, is not described.
- HashDriver.SHAMD5DataWrite: requires at least 64 bytes of the announced length still to come; what the engine does with words beyond that length is not described.
- HashEngine.RunMeans: a hash that is left open and continued later, whose length must be a multiple of 64, is covered by the state functions but not by a theorem; the 32-bit digest count does not wrap in the model.
- Cipher, compression and CRC functions, ROM dispatch tables, DMA, interrupt registration and status getters, power modes, resets and the other peripherals of the library: they would only add one-register members.
