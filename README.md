# STM32 dual-slot bootloader, modelled in Dafny

This project models the update logic of a dual-slot bootloader for the STM32L452 and proves properties of that model. On every reset the bootloader does the following:

- It loads a 24-byte *property vault* from flash. The vault has three rows of eight bytes: row 0 holds the slot byte (1 = slot A, 2 = slot B), and rows 1 and 2 hold the versions of the applications in slots A and B.
- It picks the running slot and the candidate slot from the slot byte.
- It offers a five-second command window on the UART:
  - `ALL` is answered with a 27-byte status reply.
  - `DFU` is confirmed with `OK`. Then the host sends a version token `MM.mm.pp\r\n`. A version that `strncmp` finds greater than the running one is confirmed with `OK`; any other is refused with `NO`.
- After an accepted version it receives the new image as Intel HEX records:
  - each `\n` ends a record; the record is checksummed, parsed into a 256 x 256 image buffer and acknowledged with `OK`;
  - the end-of-file record `:00000001FF` ends the transfer.
- It then programs the image into the candidate slot, rewrites the vault to name that slot and the new version, programs the vault and resets.
- Every other way out of the command window jumps to the running slot.

The modules follow `stm32_bootloader_ex.c` and `stm32_bootloader.c`:

| module | file | what it holds |
|---|---|---|
| `Bytes` | `bytes.dfy` | bytes, the constants of `stm32_bootloader.h`, and the C library routines used: `strtol` in base 16, `strncmp`, and `printf`'s `%02x`/`%08x` |
| `Frame` | `frame.dfy` | `STM32_Bootloader_Checksum` and `STM32_Bootloader_Parse` as functions on the frame and the image |
| `FlashLog` | `flashlog.dfy` | flash as a byte map; `STM32_Bootloader_Flash` as the log of HAL erase/program calls it makes; the retry logic |
| `Uart` | `uart.dfy` | `HAL_UART_Receive`, `HAL_UART_Transmit` and the tick, over a finite list of host answers |
| `Vault` | `vault.dfy` | the vault layout, little-endian 64-bit stores, slot resolution, the default vault and the commit |
| `Dfu` | `dfu.dfy` | `STM32_Bootloader_DFU`: the receive loop as a function of the host's answers, then the commit |
| `Session` | `session.dfy` | the commands, the status reply, the version token and the version gate |
| `Startup` | `startup.dfy` | `STM32_Bootloader_Init` as a function of the vault bytes in flash |
| `Commands` | `commands.dfy` | `STM32_Bootloader_Process`: the command loop and what follows it |
| `Device` | `device.dfy` | class `Bootloader`: the C globals as fields, and each C function as a method that updates them step by step |

Each method of `Device.Bootloader` is proved against a function of the other modules: `Parse` against `Frame.ParsedImage`, `Flash` against `FlashLog.FlashCalls`, `Dfu` against `Dfu.RunUpdate`, `Init` against `Startup.Boot`, and so on. The method's new state, its HAL calls and the bytes it sends are exactly what that function gives. The lemmas beside the functions state what the code promises.

The outside world is fixed when a `Bootloader` is made:
- `FLASH_BASE` and `FLASH_PAGE_SIZE`;
- the outcome of every HAL flash call, by call number;
- the outcome of every UART transmit, by message number;
- the host's answers to the receive calls, each either data with the ticks it took, or a time-out.

Once the answers are used up, the line is silent: every further receive times out after `UART_TIMEOUT` ticks. That is why every loop ends.

Where the C code would read or write outside its buffers, or where the uint16_t index of its double-word loop would wrap, the model stops with an explicit outcome instead: `Overrun` for the buffer cases and `IndexWraps` for the wrap; `Process` then ends in `Fault`.

### Behaviour of the code worth noting
- **First-boot vault.** It stores the 64-bit words 1, 0x000001 and 0 little-endian. Slot A's version bytes are therefore `01 00 00`, read back as `01.00.00`. `Vault.DefaultVaultBytes` and `Session.StatusReplyDefault` state this.
- **Parse's cleared block.** A data record sets to 0xFF the 16-byte block *after* the one holding its address, at `(w & 0xF0) + 16`, then copies its data.
- **A ':' byte.** It only enters a frame. It neither clears the frame buffer nor resets the count:
  - the buffer is refilled with 0xFF and count is reset only after each acknowledged record;
  - the first record is assembled over whatever the uninitialised local buffer held.

## Model

| member | source | states |
|---|---|---|
| Frame.IntelHexChecksum | stm32l452ret6-bootloader/VT/STM32_Bootloader/Src/stm32_bootloader_ex.c:63 | the checksum byte completes the payload's sum to a multiple of 256 |
| Frame.Sum | stm32l452ret6-bootloader/VT/STM32_Bootloader/Src/stm32_bootloader_ex.c:58-60 | the sum of the bytes; IntelHexChecksum and ChecksumValidIffSumZero state what the checksum makes of it |
| Frame.ChecksumValid | stm32l452ret6-bootloader/VT/STM32_Bootloader/Src/stm32_bootloader_ex.c:55-67 | the checksum test on a received frame; ChecksumValidIffSumZero states that it holds exactly when all bytes sum to 0 mod 256, and Device.Bootloader.Checksum is proved to compute it |
| Frame.ChecksumValidIffSumZero | stm32l452ret6-bootloader/VT/STM32_Bootloader/Src/stm32_bootloader_ex.c:55-67 | the last byte is the two's-complement checksum of the others exactly when all L bytes sum to 0 mod 256 |
| Frame.CompletionUnique | stm32l452ret6-bootloader/VT/STM32_Bootloader/Src/stm32_bootloader_ex.c:63-66 | at most one byte completes a sum to a multiple of 256, so the comparison with calcSum decides it |
| Device.Bootloader.Checksum | stm32l452ret6-bootloader/VT/STM32_Bootloader/Src/stm32_bootloader_ex.c:55-67 | the uint16_t accumulator loop and the uint8_t negation return exactly ChecksumValid of the first `length` bytes; the frame is not modified |
| Frame.Data | stm32l452ret6-bootloader/VT/STM32_Bootloader/Src/stm32_bootloader_ex.c:82-96 | the n data bytes of a record, frame[4..4+n]; where they land in the image is stated by ParseDataRecord and FullRecordParsed |
| Frame.ParsedImage | stm32l452ret6-bootloader/VT/STM32_Bootloader/Src/stm32_bootloader_ex.c:74-98 | the image after one Parse; a record type other than 00 leaves it as it was, and ParseDataRecord states byte by byte what a data record does |
| Frame.ParseDataRecord | stm32l452ret6-bootloader/VT/STM32_Bootloader/Src/stm32_bootloader_ex.c:84-96 | a data record puts frame[4+i] at h*256+w+i for i < n, sets the uncopied rest of the block at h*256+(w&0xF0)+16 to 0xFF, and leaves every other byte alone |
| Frame.ParsedOffset | stm32l452ret6-bootloader/VT/STM32_Bootloader/Src/stm32_bootloader_ex.c:90-91 | newAppOffset after one Parse; FinalOffsetLatest states that the latest data record, not the largest address, decides it |
| Frame.ParseIdempotent | stm32l452ret6-bootloader/VT/STM32_Bootloader/Src/stm32_bootloader_ex.c:84-96 | parsing the same frame twice leaves image and offset as after one parse |
| Frame.FinalOffsetLatest | stm32l452ret6-bootloader/VT/STM32_Bootloader/Src/stm32_bootloader_ex.c:90-91 | after a series of frames the offset is that of the latest data record, not the largest |
| Frame.ParseAllAppend | stm32l452ret6-bootloader/VT/STM32_Bootloader/Src/stm32_bootloader_ex.c:208 | parsing a + b is parsing a, then b, for image and offset |
| Frame.PayloadsLength | stm32l452ret6-bootloader/VT/STM32_Bootloader/Src/stm32_bootloader_ex.c:94-96 | full records contribute 16 data bytes each |
| Frame.FullRecordParsed | stm32l452ret6-bootloader/VT/STM32_Bootloader/Src/stm32_bootloader_ex.c:84-96 | a full record at an aligned address keeps the bytes below it, writes its data and erases the next block |
| Frame.ParseAllContiguous | stm32l452ret6-bootloader/VT/STM32_Bootloader/Src/stm32_bootloader_ex.c:84-96 | full records at consecutive 16-byte blocks leave their concatenated data in the image, followed by one erased block |
| Frame.ParseAllContiguousSlice | stm32l452ret6-bootloader/VT/STM32_Bootloader/Src/stm32_bootloader_ex.c:84-96 | the same, as the slice of the image from the first address |
| Device.Bootloader.Parse | stm32l452ret6-bootloader/VT/STM32_Bootloader/Src/stm32_bootloader_ex.c:74-98 | the memset and copy loop leave newApp equal to ParsedImage and newAppOffset equal to ParsedOffset |
| FlashLog.ReadBytes | stm32l452ret6-bootloader/VT/STM32_Bootloader/Src/stm32_bootloader.c:41-44 | the n bytes read from flash at a; ReadWriteBytes, FlashWrites and BootPersists state what reads back after writes |
| FlashLog.ErasePagesOf | stm32l452ret6-bootloader/VT/STM32_Bootloader/Src/stm32_bootloader_ex.c:128-135 | after a page erase, addresses in the pages read 0xFF and all others keep their value |
| FlashLog.ReadWriteBytes | stm32l452ret6-bootloader/VT/STM32_Bootloader/Src/stm32_bootloader_ex.c:148-149 | programming a double-word changes exactly its 8 bytes |
| FlashLog.ApplyLogAppend | stm32l452ret6-bootloader/VT/STM32_Bootloader/Src/stm32_bootloader_ex.c:134-157 | applying the calls of a + b is applying a, then b |
| FlashLog.RetriedShape | stm32l452ret6-bootloader/VT/STM32_Bootloader/Src/stm32_bootloader_ex.c:134-139 | a HAL call retried up to `tries` times (FLASH_RETRY, 5, in the device) makes between 1 and `tries` attempts of the same request, each with the outcome of its call number; every attempt but the last fails; it succeeds exactly when its last attempt does, and otherwise makes all `tries` |
| FlashLog.RetriedFrom | stm32l452ret6-bootloader/VT/STM32_Bootloader/Src/stm32_bootloader_ex.c:134 | proof step: the retry loop starts with no attempts made |
| FlashLog.RetriedFails | stm32l452ret6-bootloader/VT/STM32_Bootloader/Src/stm32_bootloader_ex.c:136-138 | proof step: a failed attempt with tries left is one more failure and the loop goes on |
| FlashLog.RetriedSucceeds | stm32l452ret6-bootloader/VT/STM32_Bootloader/Src/stm32_bootloader_ex.c:136 | proof step: the first successful attempt ends the retry loop with the whole log and flash of the retried call |
| FlashLog.RetriedExhausted | stm32l452ret6-bootloader/VT/STM32_Bootloader/Src/stm32_bootloader_ex.c:134-139 | proof step: with every try failed, the retried call has failed and flash is unchanged |
| FlashLog.ApplyFailed | stm32l452ret6-bootloader/VT/STM32_Bootloader/Src/stm32_bootloader_ex.c:136 | failed HAL calls leave flash as it was |
| FlashLog.ApplyRetried | stm32l452ret6-bootloader/VT/STM32_Bootloader/Src/stm32_bootloader_ex.c:134-139 | a retried call that succeeds has the effect of one successful call |
| FlashLog.EraseRetries | stm32l452ret6-bootloader/VT/STM32_Bootloader/Src/stm32_bootloader_ex.c:128-142 | Flash starts with erase requests for page (address - FLASH_BASE) / FLASH_PAGE_SIZE and offset / FLASH_PAGE_SIZE + 1 pages, at most `tries` of them, stopping at the first success; if all fail, nothing is programmed and the result is false |
| FlashLog.EraseFailed | stm32l452ret6-bootloader/VT/STM32_Bootloader/Src/stm32_bootloader_ex.c:142-161 | proof step: a failed erase ends Flash with the erase calls only and result false |
| FlashLog.EraseSucceeded | stm32l452ret6-bootloader/VT/STM32_Bootloader/Src/stm32_bootloader_ex.c:141-144 | proof step: a successful erase starts the double-word loop at i = 0 with the rest of the calls still to come |
| FlashLog.EraseThenProgram | stm32l452ret6-bootloader/VT/STM32_Bootloader/Src/stm32_bootloader_ex.c:142-158 | after a successful erase, Flash's calls are the erase's followed by the double-words', and its result is the loop's |
| FlashLog.UnitSucceeded | stm32l452ret6-bootloader/VT/STM32_Bootloader/Src/stm32_bootloader_ex.c:147-157 | proof step: a double-word programmed within its retries moves the loop to i + 8, with the rest of the calls still to come |
| FlashLog.UnitFailed | stm32l452ret6-bootloader/VT/STM32_Bootloader/Src/stm32_bootloader_ex.c:155-156 | proof step: a double-word that exhausts its retries ends the loop with Flash's whole log and flash, and Flash returns false |
| FlashLog.ProgramDone | stm32l452ret6-bootloader/VT/STM32_Bootloader/Src/stm32_bootloader_ex.c:144 | proof step: once i reaches offset, the loop is over with Flash's whole log and flash, and Flash returns true |
| FlashLog.ProgramLogUnfold | stm32l452ret6-bootloader/VT/STM32_Bootloader/Src/stm32_bootloader_ex.c:144-157 | proof step: the loop from unit i is that unit's attempts, then, only if it succeeded, the loop from i + 8 |
| FlashLog.UnitLogShape | stm32l452ret6-bootloader/VT/STM32_Bootloader/Src/stm32_bootloader_ex.c:147-153 | one unit makes 1 to `tries` attempts, all programming data[i..i+8] at address + i; all but the last fail; the last succeeds exactly when the unit does; a failed unit makes all `tries` |
| FlashLog.UnitLogUnits | stm32l452ret6-bootloader/VT/STM32_Bootloader/Src/stm32_bootloader_ex.c:145-149 | every attempt of a unit programs the double-word copied from data + i |
| FlashLog.UnitLogLast | stm32l452ret6-bootloader/VT/STM32_Bootloader/Src/stm32_bootloader_ex.c:150-156 | a unit makes at least one attempt, and its last attempt decides it |
| FlashLog.UnitLogWrites | stm32l452ret6-bootloader/VT/STM32_Bootloader/Src/stm32_bootloader_ex.c:148-149 | a successful unit writes its double-word |
| FlashLog.ProgramLogUnits | stm32l452ret6-bootloader/VT/STM32_Bootloader/Src/stm32_bootloader_ex.c:144-149 | every program call is for an aligned double-word of data at address + i, with i below offset |
| FlashLog.ProgramLogAscending | stm32l452ret6-bootloader/VT/STM32_Bootloader/Src/stm32_bootloader_ex.c:144 | double-words are programmed in ascending order of address |
| FlashLog.ProgramLogRetries | stm32l452ret6-bootloader/VT/STM32_Bootloader/Src/stm32_bootloader_ex.c:147-156 | each address is attempted at most `tries` times, and only a failure is followed by a retry of the same address |
| FlashLog.ProgramLogEmpty | stm32l452ret6-bootloader/VT/STM32_Bootloader/Src/stm32_bootloader_ex.c:144 | the loop makes no call exactly when no double-word lies below offset (i >= offset) |
| FlashLog.ProgramLogResult | stm32l452ret6-bootloader/VT/STM32_Bootloader/Src/stm32_bootloader_ex.c:156-161 | the loop succeeds exactly when it had nothing to do or its last call succeeded |
| FlashLog.ProgramLogGaveUp | stm32l452ret6-bootloader/VT/STM32_Bootloader/Src/stm32_bootloader_ex.c:155-156 | a failing loop stops at the unit that used up its retries: its last `tries` calls all failed, on one address |
| FlashLog.ProgramLogFirstUnit | stm32l452ret6-bootloader/VT/STM32_Bootloader/Src/stm32_bootloader_ex.c:145-149 | once the first unit succeeded, its bytes read back whatever the rest of the loop does |
| FlashLog.ProgramLogWrites | stm32l452ret6-bootloader/VT/STM32_Bootloader/Src/stm32_bootloader_ex.c:144-157 | after a successful loop, flash holds data[j] at address + j for every j below offset |
| FlashLog.FlashWrites | stm32l452ret6-bootloader/VT/STM32_Bootloader/Src/stm32_bootloader_ex.c:107-162 | round trip: when Flash returns true, flash holds data[..offset] from address on |
| FlashLog.FlashCalls | stm32l452ret6-bootloader/VT/STM32_Bootloader/Src/stm32_bootloader_ex.c:107-162 | the HAL calls of one Flash call, the erase's then the double-words'; EraseRetries, EraseThenProgram, ProgramLogUnits, ProgramLogAscending and ProgramLogRetries state their shape |
| FlashLog.FlashOk | stm32l452ret6-bootloader/VT/STM32_Bootloader/Src/stm32_bootloader_ex.c:134-161 | Flash's result; EraseRetries, ProgramLogResult and ProgramLogGaveUp state when it is true, and FlashWrites what flash then holds |
| FlashLog.EraseOutside | stm32l452ret6-bootloader/VT/STM32_Bootloader/Src/stm32_bootloader_ex.c:133-139 | erase requests leave addresses outside the requested pages alone |
| FlashLog.ProgramLogMisses | stm32l452ret6-bootloader/VT/STM32_Bootloader/Src/stm32_bootloader_ex.c:144-157 | the program loop leaves addresses outside the data's range alone |
| FlashLog.FlashFrame | stm32l452ret6-bootloader/VT/STM32_Bootloader/Src/stm32_bootloader_ex.c:107-162 | Flash changes nothing outside the pages it erases and the bytes it may program |
| Device.Bootloader.Hal | stm32l452ret6-bootloader/VT/STM32_Bootloader/Src/stm32_bootloader_ex.c:135 | one HAL call takes the outcome of its number, is logged, and changes flash only if it succeeds |
| Device.Bootloader.Retry | stm32l452ret6-bootloader/VT/STM32_Bootloader/Src/stm32_bootloader_ex.c:134-139 | the retry loop makes the calls Retried gives and returns RetriedOk |
| Device.Bootloader.Flash | stm32l452ret6-bootloader/VT/STM32_Bootloader/Src/stm32_bootloader_ex.c:107-162 | the erase and the double-word loop make exactly the calls of FlashCalls, leave flash as they give and return FlashOk |
| Uart.Receive | stm32l452ret6-bootloader/VT/STM32_Bootloader/Src/stm32_bootloader_ex.c:183 | a successful receive delivers exactly n bytes; time does not go back; a silent line times out after UART_TIMEOUT ticks |
| Uart.Transmit | stm32l452ret6-bootloader/VT/STM32_Bootloader/Src/stm32_bootloader_ex.c:212-216 | HAL_UART_Transmit as an oracle on the message number; IterationAcks, CommandDispatch and CommandDfu state which messages go out |
| Dfu.Iteration | stm32l452ret6-bootloader/VT/STM32_Bootloader/Src/stm32_bootloader_ex.c:181-243 | every pass of the receive loop uses up one host answer, or waits out UART_TIMEOUT on a silent line |
| Dfu.FrameEnd | stm32l452ret6-bootloader/VT/STM32_Bootloader/Src/stm32_bootloader_ex.c:202-236 | the handling of \n in a frame; IterationParses, IterationAcks and IterationStops state what it does |
| Dfu.DataPair | stm32l452ret6-bootloader/VT/STM32_Bootloader/Src/stm32_bootloader_ex.c:239-243 | the second digit and the stored pair; ByteHandling states what it stores |
| Dfu.IterationParses | stm32l452ret6-bootloader/VT/STM32_Bootloader/Src/stm32_bootloader_ex.c:202-208 | a pass parses at most one frame, only on a \n inside a frame and only after its checksum held |
| Dfu.IterationAcks | stm32l452ret6-bootloader/VT/STM32_Bootloader/Src/stm32_bootloader_ex.c:211-216 | a pass sends one OK per parsed frame and nothing else; time does not go back |
| Dfu.IterationStops | stm32l452ret6-bootloader/VT/STM32_Bootloader/Src/stm32_bootloader_ex.c:202-235 | a checksum failure stops before any parse or OK; an ack failure stops after the parse; the end marker stops once acknowledged; any other acknowledged frame refills the buffer with 0xFF, clears count and leaves the frame |
| Dfu.IterationDeadline | stm32l452ret6-bootloader/VT/STM32_Bootloader/Src/stm32_bootloader_ex.c:181-188 | a pass whose first receive, that of the byte, succeeds moves the deadline to the tick after it + 5000; the second-digit receive does not move it; a pass whose first receive times out changes nothing but the line |
| Dfu.ByteHandling | stm32l452ret6-bootloader/VT/STM32_Bootloader/Src/stm32_bootloader_ex.c:183-243 | ':' enters a frame without resetting count; '\r' is ignored in every state; other bytes outside a frame are dropped; inside a frame a received second digit stores the pair's value at frame[count] and increments count |
| Dfu.ReceiveLoop | stm32l452ret6-bootloader/VT/STM32_Bootloader/Src/stm32_bootloader_ex.c:180-244 | the receive loop up to the end marker, a time-out or a failure; ReceiveLoopParses, ReceiveLoopRefuses, ReceiveLoopCompletes and ReceiveLoopAckFails state what it leaves |
| Dfu.ReceiveLoopStep | stm32l452ret6-bootloader/VT/STM32_Bootloader/Src/stm32_bootloader_ex.c:180-244 | proof step: before the deadline the loop makes one pass and stops there or goes on |
| Dfu.ReceiveLoopTimesOut | stm32l452ret6-bootloader/VT/STM32_Bootloader/Src/stm32_bootloader_ex.c:181 | proof step: once the deadline has passed the loop ends, timed out |
| Dfu.ReceiveLoopParses | stm32l452ret6-bootloader/VT/STM32_Bootloader/Src/stm32_bootloader_ex.c:180-244 | after the loop the image is the old one with the parsed frames applied in order; each passed its checksum and got exactly one OK |
| Dfu.ReceiveLoopRefuses | stm32l452ret6-bootloader/VT/STM32_Bootloader/Src/stm32_bootloader_ex.c:181-206 | the loop times out only past the deadline; a checksum failure stops it with the failing frame |
| Dfu.ReceiveLoopCompletes | stm32l452ret6-bootloader/VT/STM32_Bootloader/Src/stm32_bootloader_ex.c:223-229 | Complete means the last parsed frame is the end marker and its OK went out |
| Dfu.ReceiveLoopAckFails | stm32l452ret6-bootloader/VT/STM32_Bootloader/Src/stm32_bootloader_ex.c:212-216 | AckFailed means the frame was parsed and its OK failed |
| Dfu.CommitUpdate | stm32l452ret6-bootloader/VT/STM32_Bootloader/Src/stm32_bootloader_ex.c:251-274 | the commit after the end marker; CommitOrder, CommitSwaps, CommitWritesVault and CommitWritesImage state its order, its effect on the vault and what flash holds |
| Dfu.CommitOrder | stm32l452ret6-bootloader/VT/STM32_Bootloader/Src/stm32_bootloader_ex.c:251-274 | the vault is written only after the image: none if the image fails or the target is no slot; otherwise one 24-byte Flash of the committed vault, installed exactly when it succeeds |
| Dfu.CommitImageFailed | stm32l452ret6-bootloader/VT/STM32_Bootloader/Src/stm32_bootloader_ex.c:252-256 | a failed image Flash ends DFU with the vault untouched |
| Dfu.CommitNoSlot | stm32l452ret6-bootloader/VT/STM32_Bootloader/Src/stm32_bootloader_ex.c:259-268 | a target that is neither slot ends DFU with no vault write |
| Dfu.CommitVaultFlashed | stm32l452ret6-bootloader/VT/STM32_Bootloader/Src/stm32_bootloader_ex.c:259-274 | with the image written, the vault is committed and flashed, and the outcome is that Flash call's |
| Dfu.VaultPagesEnd | stm32l452ret6-bootloader/VT/STM32_Bootloader/Src/stm32_bootloader_ex.c:129-130 | the vault's erase ends below slot A when a page is at most 0x10000 - 24 bytes |
| Dfu.VaultCallsMissSlots | stm32l452ret6-bootloader/VT/STM32_Bootloader/Src/stm32_bootloader_ex.c:270-271 | so the vault's Flash call leaves both slots alone |
| Dfu.ImageSurvives | stm32l452ret6-bootloader/VT/STM32_Bootloader/Src/stm32_bootloader_ex.c:252-271 | bytes programmed into a slot still read back after the vault's Flash call |
| Dfu.VaultWritten | stm32l452ret6-bootloader/VT/STM32_Bootloader/Src/stm32_bootloader_ex.c:270-274 | a successful vault Flash leaves the vault at the vault address |
| Dfu.InstalledCommit | stm32l452ret6-bootloader/VT/STM32_Bootloader/Src/stm32_bootloader_ex.c:251-277 | an installed commit made the image's Flash call and then the vault's, both successful |
| Dfu.ImageWritten | stm32l452ret6-bootloader/VT/STM32_Bootloader/Src/stm32_bootloader_ex.c:252-256 | a successful image Flash leaves the image, up to its offset, at the target |
| Dfu.CommitWritesVault | stm32l452ret6-bootloader/VT/STM32_Bootloader/Src/stm32_bootloader_ex.c:270-277 | an installed update leaves the new vault at the vault address |
| Dfu.VaultStaysWritten | stm32l452ret6-bootloader/VT/STM32_Bootloader/Src/stm32_bootloader_ex.c:252-274 | the image's Flash call followed by the vault's leaves the vault at the vault address |
| Dfu.CommitWritesImage | stm32l452ret6-bootloader/VT/STM32_Bootloader/Src/stm32_bootloader_ex.c:252-277 | an installed update leaves the received image, up to its offset, in the target slot |
| Dfu.ImageStaysWritten | stm32l452ret6-bootloader/VT/STM32_Bootloader/Src/stm32_bootloader_ex.c:252-274 | the image's Flash call followed by the vault's leaves the image in the target slot |
| Dfu.CommitSwaps | stm32l452ret6-bootloader/VT/STM32_Bootloader/Src/stm32_bootloader_ex.c:259-277 | an installed update of the candidate slot makes the vault run that slot with the new version and keeps the old slot's version |
| Dfu.RunUpdate | stm32l452ret6-bootloader/VT/STM32_Bootloader/Src/stm32_bootloader_ex.c:169-282 | without the end marker DFU returns false with no flash call and the vault kept; installed means the vault was committed |
| Dfu.UpdateWritesFlash | stm32l452ret6-bootloader/VT/STM32_Bootloader/Src/stm32_bootloader_ex.c:169-277 | round trip: an installed update leaves the new vault and the received image in flash |
| Device.Bootloader.DfuPass | stm32l452ret6-bootloader/VT/STM32_Bootloader/Src/stm32_bootloader_ex.c:181-243 | one pass of the C loop leaves frame, count, isInFrame, the deadline, newApp and the line as Iteration gives |
| Device.Bootloader.EndFrame | stm32l452ret6-bootloader/VT/STM32_Bootloader/Src/stm32_bootloader_ex.c:202-236 | the handling of \n is FrameEnd |
| Device.Bootloader.ReadPair | stm32l452ret6-bootloader/VT/STM32_Bootloader/Src/stm32_bootloader_ex.c:239-243 | the second digit receive and the stored pair are DataPair |
| Device.Bootloader.ReceiveFrames | stm32l452ret6-bootloader/VT/STM32_Bootloader/Src/stm32_bootloader_ex.c:172-244 | the while loop ends where ReceiveLoop ends |
| Device.Bootloader.Commit | stm32l452ret6-bootloader/VT/STM32_Bootloader/Src/stm32_bootloader_ex.c:251-274 | the two Flash calls and the vault rows are those CommitUpdate gives |
| Device.Bootloader.RecordSlot | stm32l452ret6-bootloader/VT/STM32_Bootloader/Src/stm32_bootloader_ex.c:259-268 | row 0 gets the target's slot byte as a 64-bit word and that slot's row gets newAppVersion; a target that is neither slot changes nothing and returns false |
| Device.Bootloader.Dfu | stm32l452ret6-bootloader/VT/STM32_Bootloader/Src/stm32_bootloader_ex.c:169-282 | STM32_Bootloader_DFU leaves the outcome, line, image, vault, HAL calls and flash RunUpdate gives, and keeps newAppVersion |
| Vault.LeValueOfBytes | stm32l452ret6-bootloader/VT/STM32_Bootloader/Src/stm32_bootloader.c:57-59 | a 64-bit little-endian store of a value loads back as that value |
| Vault.LeBytesOfValue | stm32l452ret6-bootloader/VT/STM32_Bootloader/Src/stm32_bootloader.c:57-59 | loading a row and storing it back gives the same bytes |
| Vault.DefaultVault | stm32l452ret6-bootloader/VT/STM32_Bootloader/Src/stm32_bootloader.c:57-59 | the vault of a first boot is 24 bytes (its bytes are stated by DefaultVaultBytes) |
| Vault.DefaultVaultBytes | stm32l452ret6-bootloader/VT/STM32_Bootloader/Src/stm32_bootloader.c:57-59 | byte by byte: slot A's version bytes are 01 00 00 and bytes 3..7 of each row are 0 |
| Vault.DefaultVaultWords | stm32l452ret6-bootloader/VT/STM32_Bootloader/Src/stm32_bootloader.c:57-59 | each row of the default vault loads back as the word Init stored |
| Vault.VersionOf | stm32l452ret6-bootloader/VT/STM32_Bootloader/Src/stm32_bootloader.c:50-54 | a slot's version is three bytes |
| Vault.Resolve | stm32l452ret6-bootloader/VT/STM32_Bootloader/Src/stm32_bootloader.c:47-55 | the vault resolves to slots exactly when its slot byte is 1 or 2 |
| Vault.ResolveSlots | stm32l452ret6-bootloader/VT/STM32_Bootloader/Src/stm32_bootloader.c:47-54 | a resolved vault runs one slot and updates the other: {current, new} = {A, B}, current != new, and the version is the running slot's row |
| Vault.ResolveDefault | stm32l452ret6-bootloader/VT/STM32_Bootloader/Src/stm32_bootloader.c:55-69 | the default vault runs A, updates B, with version 01 00 00 |
| Vault.Committed | stm32l452ret6-bootloader/VT/STM32_Bootloader/Src/stm32_bootloader_ex.c:259-268 | a commit exists exactly when the target is slot A or B |
| Vault.CommittedBytes | stm32l452ret6-bootloader/VT/STM32_Bootloader/Src/stm32_bootloader_ex.c:259-264 | a commit writes the slot byte as a 64-bit word into row 0 and the new version into that slot's row, and keeps every other byte |
| Vault.CommitSwapsSlots | stm32l452ret6-bootloader/VT/STM32_Bootloader/Src/stm32_bootloader_ex.c:259-264 | committing the candidate swaps running and candidate slots, with the new version as current, and keeps the old slot's version |
| Vault.CommitTwiceRestores | stm32l452ret6-bootloader/VT/STM32_Bootloader/Src/stm32_bootloader_ex.c:259-264 | two commits in turn bring the first slot back, with the second version |
| Startup.Boot | stm32l452ret6-bootloader/VT/STM32_Bootloader/Src/stm32_bootloader.c:39-70 | what Init settles on for the vault it loaded; BootResolves, BootKeeps, BootFirst and BootPersists state it |
| Startup.BootResolves | stm32l452ret6-bootloader/VT/STM32_Bootloader/Src/stm32_bootloader.c:47-70 | after Init, {current, new} = {A, B}, current != new, and they are the ones the vault in RAM resolves to |
| Startup.BootKeeps | stm32l452ret6-bootloader/VT/STM32_Bootloader/Src/stm32_bootloader.c:47-54 | slot byte 1 or 2: the vault is used as loaded and nothing is flashed |
| Startup.BootFirst | stm32l452ret6-bootloader/VT/STM32_Bootloader/Src/stm32_bootloader.c:55-70 | any other slot byte: the default vault is flashed in one 24-byte call; on failure Init jumps to A, else current = A, new = B, version 01 00 00 |
| Startup.BootPersists | stm32l452ret6-bootloader/VT/STM32_Bootloader/Src/stm32_bootloader.c:39-70 | the vault Init settles on is the one in flash |
| Device.Bootloader.LoadVault | stm32l452ret6-bootloader/VT/STM32_Bootloader/Src/stm32_bootloader.c:39-44 | the memset and the double-word memcpy loop leave the 24 bytes at the vault address |
| Device.Bootloader.StoreWord | stm32l452ret6-bootloader/VT/STM32_Bootloader/Src/stm32_bootloader.c:57-59 | a 64-bit store into a row writes its little-endian bytes and nothing else |
| Device.StoreDefault | stm32l452ret6-bootloader/VT/STM32_Bootloader/Src/stm32_bootloader.c:57-59 | the three word stores give the default vault whatever the vault held |
| Device.StoreThenCopy | stm32l452ret6-bootloader/VT/STM32_Bootloader/Src/stm32_bootloader_ex.c:259-264 | storing a word into row 0 and then copying a version into row 1 or 2 leave the word, that version in its row, and every other byte of the old vault |
| Device.Bootloader.FirstBoot | stm32l452ret6-bootloader/VT/STM32_Bootloader/Src/stm32_bootloader.c:57-65 | the three stores and the Flash call leave the default vault and the calls VaultCalls gives |
| Device.Bootloader.Init | stm32l452ret6-bootloader/VT/STM32_Bootloader/Src/stm32_bootloader.c:33-76 | Init leaves the vault, the addresses, currentAppVersion, the HAL calls and flash Boot gives, or jumps to A when Boot says so |
| Bytes.HexValue | stm32l452ret6-bootloader/VT/STM32_Bootloader/Src/stm32_bootloader_ex.c:240 | a hex digit's value is below 16 |
| Bytes.HexDigit | stm32l452ret6-bootloader/VT/STM32_Bootloader/Src/stm32_bootloader.c:125-129 | %x writes a lower-case digit that reads back as its value |
| Bytes.Hex2 | stm32l452ret6-bootloader/VT/STM32_Bootloader/Src/stm32_bootloader.c:126-129 | %02x writes two digits whose value is the byte |
| Bytes.Hex8 | stm32l452ret6-bootloader/VT/STM32_Bootloader/Src/stm32_bootloader.c:125 | printf("%08x") of the slot byte; Hex8ReadsBack states that strtol reads it back as that byte |
| Bytes.SkipSpace | stm32l452ret6-bootloader/VT/STM32_Bootloader/Src/stm32_bootloader.c:160 | strtol skips exactly the leading white space |
| Bytes.HexRun | stm32l452ret6-bootloader/VT/STM32_Bootloader/Src/stm32_bootloader.c:160 | the digit run ends at the first non-digit |
| Bytes.HexRunDigits | stm32l452ret6-bootloader/VT/STM32_Bootloader/Src/stm32_bootloader.c:160 | every byte of the run is a hex digit |
| Bytes.Strtol16 | stm32l452ret6-bootloader/VT/STM32_Bootloader/Src/stm32_bootloader.c:160 | strtol's result lies in the 32-bit long range |
| Bytes.HexPairValue | stm32l452ret6-bootloader/VT/STM32_Bootloader/Src/stm32_bootloader_ex.c:240 | strtol of two hex digits not followed by a third is their value, also after the uint8_t cast |
| Bytes.Strncmp | stm32l452ret6-bootloader/VT/STM32_Bootloader/Src/stm32_bootloader.c:164-165 | strncmp is -1, 0 or 1, and 0 exactly when the bytes agree up to n or a common NUL |
| Bytes.StrncmpPositive | stm32l452ret6-bootloader/VT/STM32_Bootloader/Src/stm32_bootloader.c:164-165 | strncmp > 0 exactly when, at the first difference before a common NUL, the first string's byte is the larger (unsigned) |
| Bytes.StrncmpAntisymmetric | stm32l452ret6-bootloader/VT/STM32_Bootloader/Src/stm32_bootloader.c:164-165 | swapping the arguments negates the result |
| Bytes.StrncmpNoNul | stm32l452ret6-bootloader/VT/STM32_Bootloader/Src/stm32_bootloader.c:122 | against a string without NUL, strncmp is 0 exactly when the n bytes are equal |
| Session.IsCommandExact | stm32l452ret6-bootloader/VT/STM32_Bootloader/Src/stm32_bootloader.c:122-140 | a 3-byte command is ALL or DFU exactly when its bytes are, and never both |
| Session.VersionLine | stm32l452ret6-bootloader/VT/STM32_Bootloader/Src/stm32_bootloader.c:126-129 | sprintf("%02x.%02x.%02x\n") of a version; VersionLineReadsBack states that it reads back as the version |
| Session.StatusReply | stm32l452ret6-bootloader/VT/STM32_Bootloader/Src/stm32_bootloader.c:124-133 | the 27-byte reply to ALL; StatusCountReadsBack, StatusVersionAReadsBack and StatusVersionBReadsBack state that its three lines read back as the slot byte and the two versions |
| Session.DefaultReplyLines | stm32l452ret6-bootloader/VT/STM32_Bootloader/Src/stm32_bootloader.c:125-129 | the lines of the first-boot reply, as text |
| Session.StatusReplyDefault | stm32l452ret6-bootloader/VT/STM32_Bootloader/Src/stm32_bootloader.c:124-133 | after a first boot the reply is "00000001\n01.00.00\n00.00.00\n" |
| Session.StatusCountReadsBack | stm32l452ret6-bootloader/VT/STM32_Bootloader/Src/stm32_bootloader.c:125 | the reply's first line reads back as the slot byte |
| Session.StatusVersionAReadsBack | stm32l452ret6-bootloader/VT/STM32_Bootloader/Src/stm32_bootloader.c:126-127 | its second line reads back as slot A's version |
| Session.StatusVersionBReadsBack | stm32l452ret6-bootloader/VT/STM32_Bootloader/Src/stm32_bootloader.c:128-129 | its third line reads back as slot B's version |
| Session.VersionLineReadsBack | stm32l452ret6-bootloader/VT/STM32_Bootloader/Src/stm32_bootloader.c:126-129 | a version line reads back as its version |
| Session.Hex8ReadsBack | stm32l452ret6-bootloader/VT/STM32_Bootloader/Src/stm32_bootloader.c:125 | %08x of a byte reads back as the byte |
| Session.HexTriple | stm32l452ret6-bootloader/VT/STM32_Bootloader/Src/stm32_bootloader.c:159-161 | three version bytes |
| Session.HexTripleAt | stm32l452ret6-bootloader/VT/STM32_Bootloader/Src/stm32_bootloader.c:159-161 | the loop's byte i is strtol at offset 3i, cast to uint8_t |
| Session.HexTripleOfPairs | stm32l452ret6-bootloader/VT/STM32_Bootloader/Src/stm32_bootloader.c:159-161 | each version byte is the value of the hex pair at offset 3i |
| Session.VersionBuffer | stm32l452ret6-bootloader/VT/STM32_Bootloader/Src/stm32_bootloader.c:152-156 | the buffer after the memset and the token receive; ParseVersionWellFormed and VersionTokenRoundTrip state what is parsed from it |
| Session.ParseVersion | stm32l452ret6-bootloader/VT/STM32_Bootloader/Src/stm32_bootloader.c:152-161 | newAppVersion as Process parses it from the token; ParseVersionWellFormed and VersionTokenRoundTrip state what it yields |
| Session.ParseVersionWellFormed | stm32l452ret6-bootloader/VT/STM32_Bootloader/Src/stm32_bootloader.c:153-161 | for a well-formed token MM.mm.pp\r\n, newAppVersion[i] is the hex-pair value at offset 3i |
| Session.VersionToken | stm32l452ret6-bootloader/VT/STM32_Bootloader/Src/stm32_bootloader.c:151-156 | a version's token is well formed |
| Session.VersionTokenRoundTrip | stm32l452ret6-bootloader/VT/STM32_Bootloader/Src/stm32_bootloader.c:153-161 | a version sent as its token is the version parsed |
| Session.VersionGate | stm32l452ret6-bootloader/VT/STM32_Bootloader/Src/stm32_bootloader.c:164-165 | the gate accepts exactly when, at the first difference before a common zero byte, the new byte is the larger |
| Session.VersionGateRefuses | stm32l452ret6-bootloader/VT/STM32_Bootloader/Src/stm32_bootloader.c:164-171 | equal versions, and versions that both start with 0x00, are refused |
| Session.VersionGateAsymmetric | stm32l452ret6-bootloader/VT/STM32_Bootloader/Src/stm32_bootloader.c:164-165 | of two versions at most one passes the gate against the other |
| Session.VersionGateLexicographic | stm32l452ret6-bootloader/VT/STM32_Bootloader/Src/stm32_bootloader.c:164-165 | for a new version without zero bytes, the gate is lexicographic order |
| Commands.CommandPass | stm32l452ret6-bootloader/VT/STM32_Bootloader/Src/stm32_bootloader.c:108-185 | every pass of the command loop uses up one host answer, or waits out UART_TIMEOUT on a silent line |
| Commands.VersionExchange | stm32l452ret6-bootloader/VT/STM32_Bootloader/Src/stm32_bootloader.c:142-179 | the exchange after DFU keeps the new deadline, uses up no more host answers than it had, and does not set time back |
| Commands.CommandDispatch | stm32l452ret6-bootloader/VT/STM32_Bootloader/Src/stm32_bootloader.c:110-140 | a failed receive keeps the deadline and sends nothing; a received command moves it to now + 5000; ALL sends exactly the status reply, keeps the vault and starts nothing; any other command but DFU is ignored |
| Commands.CommandDfu | stm32l452ret6-bootloader/VT/STM32_Bootloader/Src/stm32_bootloader.c:142-179 | DFU starts an update exactly when the first OK goes out, the token arrives, its version passes the gate and the second OK goes out |
| Commands.CommandDfuRefused | stm32l452ret6-bootloader/VT/STM32_Bootloader/Src/stm32_bootloader.c:163-171 | a version token that arrives but fails the gate gets OK then NO, starts no DFU, and still leaves newAppVersion holding the parsed version |
| Commands.CommandLoop | stm32l452ret6-bootloader/VT/STM32_Bootloader/Src/stm32_bootloader.c:105-186 | the command loop up to the deadline or the pass that starts a DFU; CommandLoopGate and ProcessResets state how it ends |
| Commands.CommandLoopStep | stm32l452ret6-bootloader/VT/STM32_Bootloader/Src/stm32_bootloader.c:108-186 | proof step: before the deadline the loop makes one pass; it ends there if the pass starts a DFU, else goes on from it |
| Commands.CommandLoopGate | stm32l452ret6-bootloader/VT/STM32_Bootloader/Src/stm32_bootloader.c:105-186 | the loop ends at the deadline with no update, or with a DFU whose version passed the gate |
| Commands.CommandPassGate | stm32l452ret6-bootloader/VT/STM32_Bootloader/Src/stm32_bootloader.c:163-179 | a pass that starts a DFU accepted its version; time does not go back |
| Commands.ConcludeUpdates | stm32l452ret6-bootloader/VT/STM32_Bootloader/Src/stm32_bootloader.c:181-189 | proof step: after a DFU the run is the update's, with the exit its outcome leads to |
| Commands.Conclude | stm32l452ret6-bootloader/VT/STM32_Bootloader/Src/stm32_bootloader.c:181-189 | what Process does after its loop; ConcludeExits, ConcludeResets and ProcessResets state how it exits |
| Commands.ExitOf | stm32l452ret6-bootloader/VT/STM32_Bootloader/Src/stm32_bootloader.c:182-189 | the exit an update's outcome leads to; ConcludeExits states it for each outcome |
| Commands.ConcludeExits | stm32l452ret6-bootloader/VT/STM32_Bootloader/Src/stm32_bootloader.c:181-189 | every exit is a jump to the running slot, a reset or a fault; without a DFU it is the jump, with no flash call and the vault kept; after a DFU it is a reset exactly when the update was installed, a fault exactly on Overrun or IndexWraps, and the jump to the running slot (the loop's break) for every other failure |
| Commands.ConcludeResets | stm32l452ret6-bootloader/VT/STM32_Bootloader/Src/stm32_bootloader_ex.c:270-277 | a reset comes only after an installed update whose vault was committed to the target with the new version |
| Commands.ProcessResets | stm32l452ret6-bootloader/VT/STM32_Bootloader/Src/stm32_bootloader.c:100-190 | Process resets only after an update whose version passed the gate |
| Device.Bootloader.CommandStep | stm32l452ret6-bootloader/VT/STM32_Bootloader/Src/stm32_bootloader.c:108-185 | one pass of the C loop leaves the line, deadline and newAppVersion CommandPass gives, and keeps the vault and currentAppVersion |
| Device.Bootloader.ExchangeVersion | stm32l452ret6-bootloader/VT/STM32_Bootloader/Src/stm32_bootloader.c:142-179 | the OK, the token receive, the version parse and the gate are VersionExchange |
| Device.Bootloader.ReadVersion | stm32l452ret6-bootloader/VT/STM32_Bootloader/Src/stm32_bootloader.c:159-161 | the for loop fills newAppVersion with HexTriple of the buffer |
| Device.Bootloader.CommandRounds | stm32l452ret6-bootloader/VT/STM32_Bootloader/Src/stm32_bootloader.c:105-186 | the while loop ends where CommandLoop ends and changes only the line and newAppVersion |
| Device.Bootloader.Finish | stm32l452ret6-bootloader/VT/STM32_Bootloader/Src/stm32_bootloader.c:181-189 | DFU, then the reset, or the break and the jump, as Conclude gives |
| Device.Bootloader.Process | stm32l452ret6-bootloader/VT/STM32_Bootloader/Src/stm32_bootloader.c:100-190 | Process leaves the exit, line, image, vault, newAppVersion, HAL calls and flash that CommandLoop and Conclude give |

## Left out

- `STM32_Bootloader_Jump`, `NVIC_SystemReset` and `STM32_Bootloader_DeInit` set hardware registers and transfer control. They are modelled only as the terminal outcomes `Jump(address)` and `Reset`.
- `SEGGER_RTT_printf` logging, the command echo into the buffer, the progress-dot counter and `HAL_Delay` have no effect on behaviour and are left out. A delay's ticks are folded into the ticks of the next receive.
- `HAL_FLASH_Unlock` and `HAL_FLASH_Lock` are left out. Erase and program calls are oracles: their outcome is a parameter indexed by call number, and a failed call is taken to leave flash unchanged.
- `HAL_UART_Receive` and `HAL_UART_Transmit` are oracles over the host's answers and a transmit outcome per message. `HAL_GetTick` is a tick that only the receive calls move. uint32 tick wrap-around is not modelled.
- Memory-unsafe corners of the C code become explicit outcomes rather than memory corruption:
  - in DFU: `Overrun` for a `\n` with count 0, for count reaching 45, and for a data record that would write outside the buffers; `IndexWraps` for an image offset above 65528;
  - in Process, both become `Fault`.
- Dfu.RunUpdate: for an image offset above 65528 the uint16_t index `i` of Flash wraps from 65528 to 0 and the loop goes on programming double-words it already wrote. It ends only when a unit exhausts its retries, which a HAL that refuses to program written flash soon makes happen; Flash then returns false, DFU returns false and Process jumps to the running slot. The model instead stops with `IndexWraps` before any HAL call, so it drops the partial erase and programming of the target slot and turns that jump into `Fault`.
- Device.Bootloader.Parse: requires the record to stay inside the frame and the image. The DFU loop checks that first and stops with `Overrun` otherwise.
- Device.Bootloader.Flash: requires offset <= 65528 and data a whole number of double-words. The vault (24 bytes) and the image (65536 bytes) meet this. DFU checks the offset first.
- Dfu.DataPair: in DFU, `strtol` reads the two received bytes and whatever follows them in memory. It is modelled on the two digits only.
- Bytes.Strtol16: models strtol on the bytes from its argument to the end of the buffer; its NUL stops the scan like any other non-digit. errno is not modelled.
- Dfu.VaultCallsMissSlots: assumes a flash page of at most 0x10000 - 24 bytes, so that the vault's erase stays below slot A; `FLASH_PAGE_SIZE` does not appear in the code.
- Dfu.CommitWritesImage: assumes a flash page of at most 0x10000 - 24 bytes, so that the vault's erase stays below slot A; `FLASH_PAGE_SIZE` does not appear in the code.
- Dfu.UpdateWritesFlash: assumes a flash page of at most 0x10000 - 24 bytes, so that the vault's erase stays below slot A; `FLASH_PAGE_SIZE` does not appear in the code.
- Device.Bootloader: `Valid()` and the constructor require 0 < FLASH_PAGE_SIZE <= 0x10000 - 24, so that the vault's erase stays below slot A; this holds for the 2 KiB pages of the STM32L452.
- Device.Bootloader.Process: the contents of DFU's uninitialised local frame buffer are a parameter, `stale`.
- Two macros of stm32_bootloader.h do not expand to what their use needs, and the model reads them as their uses evidently mean:
  - `COMMAND_LENGTH` (line 34) is read as `sizeof(COMMAND_DFU) - 1`, that is 3. As written it is a pointer expression, which cannot size the `command` array.
  - `VAULT_ADDRESS` (line 36) is read as `FLASH_BASE + 0x10000` (`Vault.VaultAddress`), which is how the slot macros below it are written. As written it expands to the absolute address 0x10000, and the erase's page number `(address - FLASH_BASE) / FLASH_PAGE_SIZE` would wrap in uint32_t. That reading is not modelled.
- Intel HEX extended-address records (types 02 and 04) are not handled by the code and are not modelled.

