# CC3200 driver library: a verified model

This project models the parts of TI's CC3200 driver library that hold real loops, protocols and modular
arithmetic over device state, and proves what they promise. `dafny verify dfyconfig.toml` checks all of it.

Each driver is a class whose fields are the registers it uses and whose methods are the C functions, branch by
branch; the device side of a register (what a write starts, what a status bit does) is part of the same class. What
a method promises is stated through specification functions, and laws about those functions, over all inputs or
over whole runs, are proved as lemmas. Polled status bits come up after an arbitrary finite number of polls.

| files | driver | main results |
|---|---|---|
| `Bits.dfy` | all | C's `&`, `\|`, `^`, `& ~` on naturals, and the lemmas that turn masks into arithmetic |
| `RtcMath.dfy`, `Prcm.dfy` | `driverlib/prcm.c` | `ClockLaw`, `AlarmLaw`, `AlarmInRun`, `MatchIsLeast`, `AlarmAhead` |
| `FlashSpec.dfy`, `Flash.dfy` | `driverlib/flash.c` | `FlashProgram`, `ProgressInWords`, `BothBranches`, `EraseThenProgram`, `StraddleTest` |
| `HashSpec.dfy`, `Sha.dfy`, `ShaDriver.dfy` | `driverlib/shamd5.c` | `HmacBothWays`, `HmacIsFromChains`, `SHAMD5DataWriteMultiple` |
| `SpinProtocol.dfy`, `SpinLock.dfy` | `driverlib/hwspinlock.c` | `MutualExclusion`, `OwnershipPersists`, `TryResult`, `HwSpinLockTryAcquire` |
| `Spi.dfy` | `driverlib/spi.c` | `SPITransfer`, `WidthInvisible`, `SameAtAnyWidth`, `EchoInPlace` |
| `BlockModes.dfy`, `BlockEngine.dfy`, `Residue.dfy`, `Aes.dfy`, `Des.dfy` | `driverlib/aes.c`, `driverlib/des.c` | `AESDataProcess`, `DESDataProcess`, `ModeEquations`, `ProcessConforms`, `UndoTransform`, `DeliversExactly`, `OverrunsExactly` |
| `NvicRuns.dfy`, `Nvic.dfy` | `driverlib/interrupt.c` | `DefaultHandlerUnreachable`, `SafeExactly`, `IntEnable`, `IntPrioritySet` |

## What is assumed of the hardware

* Calendar clock. The slow-clock counter wraps after any multiple of 2^47 ticks up to 2^64: the register layout in
  `inc/hw_hib3p3.h` gives 48 bits, the comments of `driverlib/prcm.c` 64. It ticks arbitrarily between any two
  register accesses; calls do not overlap each other. A write of 1 to the read trigger latches it.
* Flash. A call starts with the controller idle and the write buffer empty, as every blocking call leaves them.
  `FCRIS` flags are raised as `inc/hw_flash_ctrl.h` describes them: an access flag exactly for a protected block, an
  invalid-data flag exactly when a cleared bit is asked to be set, voltage and verify failures at the hardware's
  choice. Only an operation without a flag stores its data; what one with a flag leaves in its own words is open, and so
  is a write started while another is under way. The sector size is the constant `FLASH_CTRL_ERASE_SIZE`, 1 kB; the
  comment of `FlashErase` says 2 kB.
* Hash engine. It takes data words in the order of writing, whichever data register they arrive at: the driver
  writes the last, incomplete word at the address of the word before it. The mode's operation bits may or may not
  clear themselves; both are covered. The compression function is a parameter. HMAC is section 2 of RFC 2104, the
  precomputed key section 4.
* Spin lock. The write rule is that of `inc/hw_common_reg.h`: once a bit of a field is set, only 00 is accepted. A
  field written with 11, as acquire and release write all fields but their own, is taken to stay as it is; for a free
  field that is an assumption of this model, since the rule there speaks only of fields with a bit set, and of the one
  field in the two lowest bits. The bit position is in the third byte of the lock identifier. Acquire masks it with 0x0FFF, so that it shifts by 0x200 for
  the one identifier there is; the model shifts as an ARM register shift does, by the lowest byte (in C the shift is
  undefined). The NWP does not hold a lock for ever.
* SPI. The peer is an arbitrary function of all words sent so far. Words are compared as they lie in memory, least
  significant byte first; the order of bits on the pin is not modelled.
* AES and DES. The cipher is an arbitrary pair of mutually inverse functions on blocks, the counter increment an
  arbitrary function on blocks (sections 6.1, 6.2, 6.3 and 6.5 of NIST SP 800-38A). The data registers hold a block
  in memory order. `INPUT_READY` and `OUTPUT_READY` stay set until data moves.
* NVIC. Writing ones to an enable, disable, pend or unpend register acts on those bits alone (section B3.4 of the
  ARMv7-M Architecture Reference Manual). An interrupt that is enabled and pending may be taken at any moment:
  priorities and masks, which only delay it, are ignored. What a write to INT_CTRL does to an exception whose pend and
  unpend bits it carries both is left open.

## Where the code and its comments differ

* The bytes after the last whole AES or DES block are addressed at the square of the block count, in 32 bits. In
  buffers that end with the message, a message that is not whole blocks makes the driver read and write past them as
  soon as it has more than 16 (DES: 8) whole blocks, up to the 2^16 blocks at which the square wraps around
  (`OverrunsExactly`; for instance 273 bytes, `Overrun273`). The model ends a call there with the outcome `Overrun`:
  what C does then is undefined. In larger buffers some byte of the residue is never written (`WrongResidue`; with 17
  bytes already, `SeventeenBytes`). The address is right exactly for 0 and for 16 (DES: 8) whole blocks
  (`OffsetRight`). Altogether the driver leaves the mode function of the zero-padded message in a separate
  destination, whatever that held, if and only if the message is whole blocks or has 0 or 16 (DES: 8) of them
  (`DeliversExactly`); the same holds for the message whose MAC `AESDataMAC` computes (`MacExactly`).
* `FlashProgramNonBlocking` is meant to refuse a range that leaves its 128-byte block. It also refuses the empty range
  at the start of a block, and its test misses exactly the ranges that run round the address space back into their
  own block (`StraddleTest`, `GuardMissesWrap`). Those it goes on to program block after block without waiting; the
  model ends a call that comes to start a write during another with `collided`.
* `IntPendClear` ORs the unpend bit of PendSV or SysTick into what it reads from INT_CTRL. If the exception is pending,
  which is when clearing it matters, it so writes the pend bit too.
* `IntUnregister` does not disable the interrupt, though its comment says so: called alone it brings the default
  handler within reach exactly if the interrupt was enabled (`UnregisterFirst`).
* `SHAMD5HMACPPKeyGenerate` leaves its key-processing bit in the mode and `SHAMD5HMACPPKeySet` only adds bits. Unless
  the engine clears the bit, `SHAMD5ConfigSet` is needed in between (`HmacBothWays`); without it the processed key is
  taken for a raw one (`HmacWithoutReconfiguring`), and HMAC under it is another one for a suitable algorithm, with
  every key (`ProcessedKeyIsNotRaw`).
* The comments of `driverlib/prcm.c` reserve retention register 1 for the calendar clock; register 0 holds its
  fraction and in-use bit as well. Writes to either are part of the runs, and `OcrWriteKeepsTime` says when they do
  no harm.

## Model

| member | source | states |
|---|---|---|
| RtcMath.MkMsec | driverlib/prcm.c:95-96 | shift and OR build exactly seconds * 1024 plus the fraction modulo 1024 |
| RtcMath.SplitMsec | driverlib/prcm.c:98-99 | truncation to 32 and 10 bits keeps exactly the value modulo 2^42 |
| RtcMath.Select42 | driverlib/prcm.c:210 | the 42-bit mask is the remainder modulo 2^42 |
| RtcMath.CounterIsMod | inc/hw_hib3p3.h:240-283 | the wrapping counter is the tick count modulo its period |
| RtcMath.CounterKeepsClock | driverlib/prcm.c:107-115 | wrap-around of the counter does not disturb the calendar, for every counter period |
| RtcMath.MatchIsLeast | driverlib/prcm.c:1580-1592 | the programmed match value is the least counter reading that shows the wanted time |
| RtcMath.AlarmAhead | driverlib/prcm.c:1580-1592 | the match value is ahead of the counter if and only if the target is not the present unit and the counter reaches it while it stays below 2^47 |
| RtcMath.AlarmFiresFirst | driverlib/prcm.c:1580-1592 | an alarm that is ahead fires at the first tick at which the clock shows its target, never earlier |
| RtcMath.FireUnit | driverlib/prcm.c:1580-1592 | during the whole unit in which the alarm fires the clock shows the target |
| Prcm.Hib.PRCMHIBRegRead | driverlib/prcm.c:1826-1844 | a register read, with arbitrary ticking before it |
| Prcm.Hib.PRCMHIBRegWrite | driverlib/prcm.c:1859-1870 | a register write, landing at some tick of the call |
| Prcm.Hib.RTCUseSet | driverlib/prcm.c:129-138 | sets bit 31 of REG2 and changes nothing else |
| Prcm.Hib.IsRTCUsed | driverlib/prcm.c:143-152 | reads bit 31 of REG2 |
| Prcm.Hib.RTCU16MSecRegRead | driverlib/prcm.c:157-166 | reads the 10-bit fraction field alone |
| Prcm.Hib.RTCU16MSecRegWrite | driverlib/prcm.c:171-180 | writes the fraction field and keeps the in-use bit, bits 30-26 and the low half |
| Prcm.Hib.LatchedCounter | driverlib/prcm.c:1201-1219 | the two halves read are those of the counter at the latch, whatever ticks in between |
| Prcm.Hib.PRCMSlowClkCtrGet | driverlib/prcm.c:1201-1219 | returns the untorn counter value at an instant within the call |
| Prcm.Hib.PRCMSlowClkCtrMatchSet | driverlib/prcm.c:1234-1243 | IRQ_LSW takes the low and IRQ_MSW the high 32 bits of the value, nothing else changes |
| Prcm.Hib.PRCMSlowClkCtrMatchGet | driverlib/prcm.c:1255-1270 | returns IRQ_MSW * 2^32 + IRQ_LSW |
| Prcm.Hib.PRCMHibernateIntervalSet | driverlib/prcm.c:1080-1108 | WAKE_LSW takes the low and WAKE_MSW the next 32 bits of the latched counter plus the interval |
| Prcm.Hib.PRCMOCRRegisterWrite | driverlib/prcm.c:1285-1288 | writes retention register 2 or 3 as a whole |
| Prcm.Hib.PRCMRTCInUseGet | driverlib/prcm.c:1488-1491 | tells whether the clock is in use and changes nothing |
| Prcm.Hib.PRCMRTCSet | driverlib/prcm.c:1512-1524 | if in use, the clock shows the given time at an instant within the call; flags, alarm and wake registers are kept; otherwise nothing |
| Prcm.Hib.PRCMRTCGet | driverlib/prcm.c:1545-1559 | if in use, returns the clock at an instant within the call; otherwise zeros |
| Prcm.Hib.PRCMRTCMatchSet | driverlib/prcm.c:1580-1592 | if in use, IRQ_LSW and IRQ_MSW take the halves of 32 times the given time less the reference, modulo 2^42; otherwise nothing |
| Prcm.Hib.PRCMRTCMatchGet | driverlib/prcm.c:1613-1627 | returns the time the match value stands for; otherwise zeros |
| Prcm.SetInFields | driverlib/prcm.c:1512-1524 | field by field: after setting, that sum is the given time; bits 31-26 and 15-0 of REG2, alarm and wake registers are kept |
| Prcm.GetInFields | driverlib/prcm.c:1545-1559 | field by field: REG3 * 1024, the fraction in REG2 and the tick of the latch over 32 add up to the time returned, modulo 2^42 |
| Prcm.MatchGetInFields | driverlib/prcm.c:1613-1627 | field by field: REG3 * 1024, the fraction in REG2 and the match registers over 32 add up to the time returned, modulo 2^42 |
| Prcm.UseLaw | driverlib/prcm.c:117-180 | in every run without OCR writes, once in use the clock stays in use, and bits 31-26 and 15-0 of REG2 never change |
| Prcm.ClockLaw | driverlib/prcm.c:1512-1559 | in every run, the time read is the last time set plus the elapsed units, modulo 2^42, through every wrap of the counter |
| Prcm.AlarmLaw | driverlib/prcm.c:1580-1627 | in every run, the alarm read back is the alarm set, moved by exactly the change of reference since, modulo 2^42 |
| Prcm.AlarmReadBack | driverlib/prcm.c:1580-1627 | with no time set in between it is the alarm as set, its fraction modulo 1024 |
| Prcm.AlarmInRun | driverlib/prcm.c:1545-1592 | in every run, IRQ_LSW and IRQ_MSW are the halves the counter reads when the alarm fires, and not before; a time read equal to the target is read at or after that, and during the alarm's unit the target is read |
| Prcm.OcrWriteKeepsTime | driverlib/prcm.c:101-102 | a retention-register write keeps the time if and only if it rewrites the field stored there; and when the clock is in use after it |
| FlashSpec.OverwriteAt | driverlib/flash.c:438-466 | programming word by word puts each datum in its place and changes no other word |
| FlashSpec.BurnIsOverwrite | driverlib/flash.c:407-431 | committing a filled buffer is that word-by-word overwrite, and touches nothing outside it even on failure |
| FlashSpec.ProgressStep | driverlib/flash.c:401-436 | one more committed block extends the programmed range, each word still programmed once |
| FlashSpec.ErasedIsProgrammable | driverlib/flash.c:360-369 | an erased word takes any datum |
| FlashSpec.ProgrammableBits | driverlib/flash.c:360-369 | a datum can be programmed if and only if no bit set in it is clear in the cell |
| FlashSpec.ProgressOnce | driverlib/flash.c:401-436 | a word is programmed by exactly one commit if it lies in the range and by none otherwise, and the words of a commit share a 128-byte block |
| FlashSpec.ProgressInWords | driverlib/flash.c:375-483 | word by word: outside the range nothing changes, without a flag each word inside holds its datum; a flag is raised if and only if a word inside is protected or asked to set a cleared bit, or the hardware failed |
| FlashSpec.ErasedInWords | inc/hw_flash_ctrl.h:1113-1194 | an erase without a flag leaves all ones in its words; other words stay; the access flag comes exactly from a protected block it meets |
| Flash.FlashController.Burn | inc/hw_flash_ctrl.h:1113-1194 | the device: which flags an operation raises; without a flag it stores its data, with one its own words are open, and no other word changes |
| Flash.FlashController.FillBlock | driverlib/flash.c:407-422 | the inner loop fills the buffer with exactly the data up to the end of the block or of the data, and ends |
| Flash.FlashController.FlashProgram | driverlib/flash.c:375-483 | every target word is programmed exactly once, nothing else changes, no commit leaves its 128-byte block and there is one commit for each block met; failure is reported if and only if a block of this call raised a flag, that is, if and only if the range was not clear or the hardware failed |
| Flash.FlashController.FlashProgramByWord | driverlib/flash.c:438-467 | the branch without a write buffer meets the same contract, with one commit for each word |
| Flash.BothBranches | driverlib/flash.c:396-468 | both branches operate on the same words equally often, leave the same flash, and report differently only by a hardware failure |
| Flash.FlashController.FlashProgramNonBlocking | driverlib/flash.c:520-603 | for every aligned range: refuses if and only if its last byte, addressed in 32 bits, lies in another block than its first: that is the straddling ranges that do not run round the address space, and the empty range at a block's start; any other is programmed, by exactly one commit unless it runs round; a commit during another happens for those only |
| Flash.StraddleTest | driverlib/flash.c:546-552 | for every address and count, when the driver's test refuses |
| Flash.StraddlesByte | driverlib/flash.c:546-552 | a range straddles blocks if and only if one of its bytes lies in another block than its first |
| Flash.GuardMissesWrap | driverlib/flash.c:546-552 | a straddling range that the test accepts |
| Flash.FlashController.FlashErase | driverlib/flash.c:187-230 | the sector is erased and nothing else; failure is reported if and only if this erase raised a flag, stale flags notwithstanding |
| Flash.FlashController.FlashMassErase | driverlib/flash.c:283-320 | the same for the whole flash |
| Flash.EraseThenProgram | driverlib/flash.c:187-483 | programming within a sector erased without fault reads back as the data, or the hardware failed |
| HashSpec.BytesOfWords | driverlib/shamd5.c:677-763 | the bytes of the words are the data, followed by exactly (4 - length % 4) % 4 zeros |
| HashSpec.BytesAt | driverlib/shamd5.c:651-655 | each word is laid out least significant byte first |
| HashSpec.WordsOfBytes | driverlib/shamd5.c:1025-1033 | words stored as bytes and loaded again are the same words |
| HashSpec.HmacIsFromChains | driverlib/shamd5.c:942-995 | RFC 2104 section 4: HMAC from the two chains precomputed from the key is HMAC, for every message |
| HashSpec.HashByBlocks | driverlib/shamd5.c:766-840 | a hash is the leading bytes of the last of the chains that the blocks of message and padding lead through |
| HashSpec.HmacFromPads | driverlib/shamd5.c:842-918 | HMAC is the hash of the key XOR 5C.. and the hash of the key XOR 36.. and the message, the XOR taken bit by bit |
| Sha.RawKeyIsHmac | driverlib/shamd5.c:1015-1039 | an operation started with the raw key in the digest registers ends with HMAC |
| Sha.KeyProcessing | driverlib/shamd5.c:942-995 | an empty operation with only key processing leaves the two chains of the key |
| Sha.PreprocessedKeyIsHmac | driverlib/shamd5.c:1060-1088 | an operation started with the two chains and a count of 64 ends with the same HMAC |
| Sha.ConstantsGiveHash | driverlib/shamd5.c:796-840 | an operation with algorithm constants ends with the plain hash |
| ShaDriver.ShaEngine.SHAMD5DataWrite | driverlib/shamd5.c:507-531 | after exactly one ready check, made before the first of them, the sixteen words of a block go out in order |
| ShaDriver.ShaEngine.SHAMD5DataWriteMultiple | driverlib/shamd5.c:677-763 | word n goes out as data[4n] + 2^8 data[4n+1] + 2^16 data[4n+2] + 2^24 data[4n+3], missing bytes zero, to data register n % 16, or the one before if bytes are missing and it is not the first; input-ready is checked before every sixteenth word; nothing beyond the data is read |
| ShaDriver.LogIsWords | driverlib/shamd5.c:677-763 | in order of arrival, the words written are the words of the data |
| ShaDriver.LogBlock | driverlib/shamd5.c:694-708 | the writes of a block followed by those of the rest are the writes of the whole |
| ShaDriver.LogWords | driverlib/shamd5.c:677-763 | the value and the register of every word written |
| ShaDriver.TailSlotsDistinct | driverlib/shamd5.c:710-757 | in an incomplete block no data register is written twice if and only if it is whole words or less than one word |
| ShaDriver.ShaEngine.SHAMD5ResultRead | driverlib/shamd5.c:557-656 | stores 16, 20, 28 or 32 bytes for MD5, SHA-1, SHA-224 or SHA-256 from IDIGEST_A on, least significant byte of each word first, and keeps the rest |
| ShaDriver.ShaEngine.SHAMD5DataProcess | driverlib/shamd5.c:796-840 | the registers end as the engine's function of their start and the data, and the result is stored; with algorithm constants and closing it is the hash of the data |
| ShaDriver.ShaEngine.SHAMD5HMACProcess | driverlib/shamd5.c:874-918 | the registers end as the engine's function of their start and the data, and the result is stored |
| ShaDriver.ShaEngine.SHAMD5HMACPPKeyGenerate | driverlib/shamd5.c:942-995 | stores the registers an empty operation with key processing ends with; with neither closing nor outer hash configured, these are the two chains HMAC derives from the key; the key-processing bit is left in the mode unless it clears itself |
| ShaDriver.ShaEngine.SHAMD5HMACKeySet | driverlib/shamd5.c:1015-1039 | the sixteen key words and the three mode bits, nothing else |
| ShaDriver.ShaEngine.SHAMD5HMACPPKeySet | driverlib/shamd5.c:1060-1088 | the sixteen words, two mode bits and the count of 64, nothing else |
| ShaDriver.HmacFromKey | driverlib/shamd5.c:874-1039 | configure, set the raw key, process: the driver stores the RFC 2104 HMAC |
| ShaDriver.HmacFromPPKey | driverlib/shamd5.c:874-1088 | preprocess the key, configure again, set it, process: the driver stores the RFC 2104 HMAC |
| ShaDriver.HmacBothWays | driverlib/shamd5.c:873-1088 | from the raw key and from the preprocessed key, reconfigured in between, the driver stores the same RFC 2104 HMAC, for every key, message and algorithm |
| ShaDriver.HmacWithoutReconfiguring | driverlib/shamd5.c:972-1081 | without reconfiguring, the result is HMAC under the key if the mode clears itself, and under the processed key as a raw one if not |
| Sha.ProcessedKeyIsNotRaw | driverlib/shamd5.c:972-1081 | an algorithm, of each digest size, for which with every key HMAC under the processed key as a raw one is not HMAC under the key |
| SpinProtocol.StepKeepsInv | driverlib/hwspinlock.c:77-202 | every register access of either processor keeps the invariant |
| SpinProtocol.RunKeepsInv | driverlib/hwspinlock.c:77-202 | so it holds in every state of every interleaving |
| SpinProtocol.MutualExclusion | driverlib/hwspinlock.c:77-202 | in every interleaving at most one processor holds the lock, and the field names the holder |
| SpinProtocol.OwnershipPersists | driverlib/hwspinlock.c:77-202 | ownership gained lasts until the owner itself calls release |
| SpinProtocol.TryBegan | driverlib/hwspinlock.c:121-147 | in every interleaving a try under way is bounded by the retries of the call that began it |
| SpinProtocol.TryResult | driverlib/hwspinlock.c:121-170 | in every interleaving a try returns 0 if and only if it owns the lock; the read after the loop agrees with the loop's last; at least one write was made and, retries being given, at most that many; -1 comes only after all of them, or after one if none were given, for the retries of that very call |
| SpinProtocol.CallResults | driverlib/hwspinlock.c:77-202 | in every interleaving a write of acquire takes a free field, acquire returns with the lock held, release frees it if and only if it is owned |
| SpinProtocol.OtherInterferes | driverlib/hwspinlock.c:77-202 | what any number of steps of the other processor can do to the field |
| SpinProtocol.RunIsTrace | driverlib/hwspinlock.c:77-202 | in every interleaving, what one processor does is a trace of its own accesses with the other's interference in between |
| SpinLock.SspiIsLock | driverlib/hwspinlock.h:57 | the one identifier of the header is the lowest field |
| SpinLock.EncodeField | driverlib/hwspinlock.c:233 | the register value holds each field's code at its position |
| SpinLock.AcquireBits | driverlib/hwspinlock.c:87-94 | the word acquire writes has exactly the upper bit of its field clear |
| SpinLock.ReleaseBits | driverlib/hwspinlock.c:192-200 | the word release writes has exactly the two bits of its field clear |
| SpinLock.AcquireAsks | driverlib/hwspinlock.c:87-94 | the word acquire writes asks for Apps in its own field and leaves all others |
| SpinLock.ReleaseAsks | driverlib/hwspinlock.c:192-200 | the word release writes frees its own field and leaves all others |
| SpinLock.TestReadsOwner | driverlib/hwspinlock.c:103 | the bit test of the register is whether Apps owns the field, with either mask |
| SpinLock.MasksAgree | driverlib/hwspinlock.c:87-192 | shifting by the 12-bit and by the 8-bit mask of the identifier gives the same word on the processor |
| SpinLock.Semaphores.HwSpinLockAcquire | driverlib/hwspinlock.c:77-105 | ends with Apps owning the lock; all other fields are touched by the NWP alone; its accesses are a trace of the protocol |
| SpinLock.Semaphores.HwSpinLockTryAcquire | driverlib/hwspinlock.c:121-170 | ends under any NWP behaviour after at least one write and at most the retries given; 0 exactly if Apps owns the lock, -1 exactly if not and then after all retries, or one if none were given; its accesses are a trace of the protocol |
| SpinLock.Semaphores.HwSpinLockRelease | driverlib/hwspinlock.c:183-202 | frees the lock exactly if Apps owns it, without a write otherwise; other fields untouched; its accesses are a trace of the protocol |
| SpinLock.Semaphores.HwSpinLockTest | driverlib/hwspinlock.c:218-234 | the current-owner half returns the owner's code |
| Spi.BytesOfValues | driverlib/spi.c:98-463 | the words of a buffer laid out again are the buffer, at every width |
| Spi.SpiModule.WriteTx | driverlib/spi.c:150-160 | a word is written only when no reply is outstanding |
| Spi.SpiModule.ReadRx | driverlib/spi.c:162-172 | a reply is read only after its word: words written minus words read is always 0 or 1 |
| Spi.SpiModule.TransferWords | driverlib/spi.c:140-187 | the loop sends the buffer's words in order and stores the replies, even if both buffers are one |
| Spi.HalvesStored | driverlib/spi.c:218-330 | which byte of which reply each byte of the input buffer holds, two to a word |
| Spi.WordsStored | driverlib/spi.c:350-463 | which byte of which reply each byte of the input buffer holds, four to a word |
| Spi.SpiModule.SPITransfer8 | driverlib/spi.c:98-197 | any number of bytes: those of the buffer in order, or 0xFF each without one; chip select meanwhile and after; exactly `count` replies stored in order, no other byte changed |
| Spi.SpiModule.SPITransfer16 | driverlib/spi.c:218-330 | the same in half-words dout[2i] + 2^8 dout[2i+1], or 0xFFFF each, replies stored low byte first; an odd count is refused and nothing happens |
| Spi.SpiModule.SPITransfer32 | driverlib/spi.c:350-463 | the same in words dout[4i] + .. + 2^24 dout[4i+3], or 0xFFFF_FFFF each; a count not a multiple of four is refused and nothing happens |
| Spi.SpiModule.SPITransfer | driverlib/spi.c:1470-1521 | success exactly for word length 8, 16 or 32 and a multiple of it; then every word sent is the little-endian value of its bytes of the buffer, or 0xFF, 0xFFFF, 0xFFFF_FFFF without one, and the replies are stored the same way |
| Spi.WidthInvisible | driverlib/spi.c:98-463 | against any peer that answers byte by byte, the bytes received are its answers to the bytes sent, whatever the width |
| Spi.SameAtAnyWidth | driverlib/spi.c:1470-1521 | two modules of different word lengths facing the same such peer receive the same bytes |
| Spi.EchoInPlace | driverlib/spi.c:1470-1521 | an in-place transfer with an echoing peer leaves the buffer as it was |
| BlockModes.ProcessConforms | driverlib/aes.c:752-809 | the chaining engine's output satisfies the equations of NIST SP 800-38A, block by block, in each mode and direction, as `ModeEquations` spells them out |
| BlockModes.ModeEquations | driverlib/aes.c:752-809 | CBC encryption is enc(x xor the ciphertext before), CBC decryption dec(x) xor the ciphertext before, CFB and CTR use enc in both directions, on the block before and on the counter |
| BlockModes.XorBlockBits | driverlib/aes.c:752-809 | the exclusive or of blocks, bit by bit |
| BlockModes.CounterSteps | driverlib/aes.c:752-809 | counter blocks are the vector and the increment of the one before |
| BlockModes.TransformModes | driverlib/aes.c:752-809 | the same equations for the bytes at every block position of the output |
| BlockModes.ConformsUnique | driverlib/aes.c:752-809 | and is the only output that does |
| BlockModes.UndoTransform | driverlib/aes.c:752-809 | in every mode each direction undoes the other, for every message in whole blocks |
| BlockModes.TransformConcat | driverlib/aes.c:770-784 | a message may be processed in parts of whole blocks |
| BlockEngine.Engine.WriteData | driverlib/aes.c:719-724 | the device: a block written gives its mode output and moves the feedback register |
| BlockEngine.RoundStep | driverlib/aes.c:771-784 | one block written and read back extends the output by one block of the mode function, in place or not |
| Residue.OffsetRight | driverlib/aes.c:795-800 | the residue's address is the end of the whole blocks if and only if their number is 0 or the block size |
| Residue.OverrunsExactly | driverlib/aes.c:789-801 | in buffers that end with the message, for every length: the accesses stay inside if and only if the address is not beyond the whole blocks; below 2^16 blocks, if and only if there is no residue or at most 16 (8) of them, and else the whole residue access lies outside |
| Residue.Overrun273 | driverlib/aes.c:789-801 | 273 bytes in 273-byte buffers are overrun at address 289 |
| Residue.RightResidue | driverlib/aes.c:789-801 | with 0 or 16 (8) whole blocks the output is the mode function of the message padded with zeros, even in place |
| Residue.WrongResidue | driverlib/aes.c:789-801 | otherwise, if the buffers are large enough, a byte of the residue named by the length keeps its old value in the destination |
| Residue.DeliversExactly | driverlib/aes.c:752-809 | for every cipher, mode, message, length and size of separate buffers: the mode function of the padded message is delivered, whatever the destination held, if and only if the length is whole blocks or has 0 or 16 (8) of them |
| Residue.ProcessedWhole | driverlib/aes.c:752-784 | a length of whole blocks, byte by byte: the mode function, then the old bytes |
| Residue.ProcessedBytes | driverlib/aes.c:789-801 | any other length, byte by byte: at the residue's address the mode output of what is there padded with zeros, elsewhere the whole blocks or the old bytes |
| Aes.AESDataWrite | driverlib/aes.c:689-725 | lengths 1 to 16: the zero-padded block is processed; other lengths: nothing |
| Aes.AESDataRead | driverlib/aes.c:567-607 | lengths 1 to 16: that many bytes of the output are stored, no other byte changes; other lengths: nothing |
| Aes.AESDataProcess | driverlib/aes.c:752-809 | for every length and buffers that hold the message, in place or not: whole blocks through the mode function, then the residue as the code addresses it, or an overrun exactly if that address lies outside a buffer |
| Aes.ProcessWhole | driverlib/aes.c:752-809 | for multiples of 16, every block of the destination satisfies its mode's equation in enc, dec and xor over the source, in place or not; the rest is kept |
| Aes.RoundTripInPlace | driverlib/aes.c:752-809 | encrypting a buffer in place and decrypting it from the same vector restores it |
| Aes.SeventeenBytes | driverlib/aes.c:795-800 | of 17 bytes the last one of the destination is never written |
| Aes.AESDataMAC | driverlib/aes.c:831-890 | for every length and source that holds it: the tag is the feedback after the message, its residue as the code addresses it, or an overrun exactly if that address lies outside the source |
| Aes.MacExactly | driverlib/aes.c:831-890 | that message is the zero-padded one for every content of the source if and only if the length is whole blocks or has 0 or 16 of them |
| Aes.TagIsLastBlock | driverlib/aes.c:831-890 | which is the last block of the message's CBC encryption |
| Aes.TagIsTail | driverlib/aes.c:831-890 | on bytes: the last 16 of the CBC encryption |
| Des.DESDataWriteNonBlocking | driverlib/des.c:356-401 | true exactly for a length of 1 to 8 with the engine ready, false also while an output is pending; then the padded block is processed, otherwise nothing |
| Des.DESDataReadNonBlocking | driverlib/des.c:244-286 | true exactly for a length of 1 to 8 with output ready; then that many bytes are stored, otherwise nothing |
| Des.Transfer | driverlib/des.c:502-528 | after its ready waits neither non-blocking routine ever refuses |
| Des.ProcessBlocks | driverlib/des.c:502-528 | no block is dropped, repeated or reordered, and no ignored result was false |
| Des.DESDataProcess | driverlib/des.c:481-567 | for every length and buffers that hold the message, in place or not: whole blocks through the mode function, then the residue as the code addresses it, or an overrun exactly if that address lies outside a buffer |
| Des.ProcessWhole | driverlib/des.c:481-567 | for multiples of 8, every block of the destination satisfies its mode's equation in enc, dec and xor over the source, in place or not; the rest is kept |
| NvicRuns.DefaultHandlerUnreachable | driverlib/interrupt.c:142-145 | in every run in which drivers only register-then-enable and disable-then-unregister, interrupts and other calls at any point, every interrupt taken runs the handler most recently registered for it, never the default one |
| NvicRuns.PairedIsDisciplined | driverlib/interrupt.c:142-145 | such pairs, the last possibly half done, are an instance of the discipline below |
| NvicRuns.SafeExactly | driverlib/interrupt.c:142-145 | in every run, interrupts and other drivers at any point, an interrupt never comes within reach of the default handler if and only if it is enabled only with a handler and unregistered only while disabled |
| NvicRuns.NeverDefault | driverlib/interrupt.c:142-145 | then an interrupt taken runs the handler most recently registered for it, never the default one |
| NvicRuns.ExposedReachesDefault | driverlib/interrupt.c:142-145 | an interrupt can be taken to the default handler if and only if it is enabled with that handler in place |
| NvicRuns.CallKeepsDiscipline | driverlib/aes.c:1200-1250 | appended to any run that keeps that discipline, one register or unregister call keeps it, whatever else happens between its two accesses |
| NvicRuns.UnregisterFirst | driverlib/interrupt.c:266-294 | unregistering alone, or before disabling, exposes the interrupt if and only if it was enabled |
| Nvic.OwnBit | driverlib/interrupt.c:507-509 | no two interrupts share a bank and a bit |
| Nvic.NowInRegisters | driverlib/interrupt.c:461-707 | which register bit enables an interrupt and which holds it pending |
| Nvic.PriorityInRegister | driverlib/interrupt.c:433-445 | the priority of interrupt n is byte n % 4 of register n / 4 |
| Nvic.FilledLane | driverlib/interrupt.c:413-416 | clear-and-fill of a byte lane sets that lane and no other |
| Nvic.Controller.IntRegister | driverlib/interrupt.c:253-264 | the table entry of the one interrupt becomes the handler |
| Nvic.Controller.IntUnregister | driverlib/interrupt.c:283-294 | the table entry of the one interrupt becomes the default handler, and nothing is disabled |
| Nvic.Controller.IntEnable | driverlib/interrupt.c:461-517 | the set of enabled interrupts gains exactly this one, faults and system tick included: bit (n - 16) % 32 of bank (n - 16) / 32, or bit 16, 17, 18 of the system handler control, or bit 1 of the tick control, and no other bit; interrupts without an enable bit are left alone |
| Nvic.Controller.IntDisable | driverlib/interrupt.c:533-590 | the set of enabled interrupts loses exactly this one, by the same bit, and no other bit changes |
| Nvic.Controller.IntPendSet | driverlib/interrupt.c:610-658 | the set of pending interrupts gains exactly this one, NMI, PendSV and SysTick included; interrupts without a pend bit are left alone |
| Nvic.Controller.IntPendClear | driverlib/interrupt.c:675-707 | the set of pending interrupts loses exactly this one; only for PendSV or SysTick while pending it may also stay, as both bits are written |
| Nvic.Controller.IntPrioritySet | driverlib/interrupt.c:401-417 | this interrupt's priority becomes the one given, every other one stays |
| Nvic.Controller.IntPriorityGet | driverlib/interrupt.c:433-445 | returns this interrupt's lane |
| Nvic.GroupOfWrite | driverlib/interrupt.c:313-324 | APINT shows the group written with the key |
| Nvic.Controller.IntPriorityGroupingSet | driverlib/interrupt.c:313-324 | the group is the one of the table: APINT bits 10-8 become 7 minus the number of bits |
| Nvic.Controller.IntPriorityGroupingGet | driverlib/interrupt.c:337-364 | the search always finds the group, and returns the number that was set, 7 minus APINT bits 10-8 |
| Nvic.Controller.AESIntRegister | driverlib/aes.c:1200-1216 | is exactly a registration followed by an enable of interrupt 167, bit 23 of bank 4 |
| Nvic.Controller.AESIntUnregister | driverlib/aes.c:1234-1250 | is exactly a disable followed by an unregistration |
| Nvic.Controller.SPIIntRegister | driverlib/spi.c:1122-1140 | the same order for the interrupt of the SPI module, 191, 192 or 193 |
| Nvic.Controller.SPIIntUnregister | driverlib/spi.c:1160-1178 | the same order for the interrupt of the SPI module |

## Left out

- Flash.FlashController.FlashProgramNonBlocking: after a collision, what the second write does to the first is not modelled, because the device description does not define it.
- Flash.FlashController.Burn: the content of the words of an operation that raised a flag is open.
- Aes.AESDataProcess: after an overrun nothing is modelled; C leaves it undefined.
- Aes.AESDataMAC: the same.
- Des.DESDataProcess: the same.
- BlockEngine.Engine.WriteData: the two or four data register writes of a block are one step, in memory order.
- Nvic.Controller.IntPendSet: the read-modify-write of INT_CTRL is one step.
- Nvic.Controller.IntPendClear: for PendSV and SysTick while pending the outcome is open between cleared and kept.
- Nvic.Controller.IntEnable: the read-modify-write of the system handler control and tick registers is one step; an interrupt between its read and its write is not modelled.
- SpinLock.Semaphores.HwSpinLockTest: the previous-owner half, whose register lookup does not match its comment.
- Prcm.Hib.PRCMRTCSet: calls are atomic with respect to each other; only the counter runs concurrently.
- Modes ICM, F8, F9, XTS, GCM and CCM; `AESDataProcessAE`, whose 32-bit loop counters never pass lengths above 2^32 - 16.
- `FlashEraseNonBlocking`, `FlashMassEraseNonBlocking`, flash protection and interrupt functions: single register writes.
- Keys other than 64 bytes for HMAC (the driver takes exactly 64), DMA data paths, the non-blocking and interrupt functions of the hash engine.
- `SPIConfigSetExpClk`, SPI FIFO and DMA functions, word lengths other than 8, 16 and 32 (the driver refuses them).
- The order of the AES and DES data registers within a block, and key and vector registers: writing a vector is an assignment to the feedback register.
- Clock dividers: `I2CMasterInitExpClk`, `PRCMI2SClockFreqSet`, the SPI divider split.
- `UtilsDelay`, inline assembly and barriers, sleep and hibernate entry, chip bring-up, and unbounded waits: every polled flag comes up after finitely many polls.
- Interrupt priorities, masking and nesting limits: leaving them out only adds runs.
- All other drivers (ADC, camera, GPIO, pin, I2C, I2S, SD host, CRC, timers, UART, watchdog): single-register setters and getters that would add only easy members.
