# gpNvm attribute store — a Dafny model

This project models a small general-purpose NVM component. It stores numbered
*attributes* (blocks of at most 0xFF bytes, placed by a fixed memory map) in a
simulated 8 KiB flash device. Each flash page is protected by a Hamming
single-error-correcting code. Its parity record takes two bytes in an ECC block at
the top of flash.

The model consists of four parts:

- **Hamming codec** (`Hamming`, `hamming.dfy`). The codec computes 14 parity bits
  over the 16384 data bits of a 0x800-byte page. Parity bit `i` covers data bit `j`
  when bit `i` of `j + 1` is set. Decoding adds up the positions of mismatching parity
  bits into a syndrome, flips the named bit, and returns the syndrome truncated to
  `UInt8`. The counting loops, the parity-clearing loop and the syndrome loop are
  methods over arrays. Each is proved against pure functions (`ComputedParity`,
  `Syndrome`, `Corrected`, `DecodeResult`).
- **Flash simulator** (`Flash`, `flash.dfy`). The flash is a class holding the
  `Memory` array, with the driver's write, page-erase, read and erased-check
  operations. Each operation's status follows the driver's order of checks, where a
  later check overrides an earlier one. Addresses are absolute numbers starting at
  0x80000; address 0 stands for a NULL pointer, and a `null` array for a NULL buffer.
- **Memory map** (`NvmMap`, `nvm_map.dfy`). It gives the NVM's own geometry
  constants, the three user blocks and the ECC block, and the configuration rules a
  valid map must obey.
- **NVM engine** (`Nvm`, `nvm.dfy`). It models the get/set of attributes, the
  read-erase-rewrite page update, and the ECC scan-and-fix and parity-update passes.
  These are methods over a `FlashDevice`. Each is specified by a pure function of the
  memory before the call (`ScanAndFix`, `UpdateParity`, `SetMemory`).

`NvmProperties` (`nvm_props.dfy`) proves what the engine does across calls:

- the set/get round trip;
- single-bit self-healing;
- the two scenarios of the unit tests;
- the places where the code falls short of its own design.

The model follows the code as written, including its defects:

- The id check accepts `GPNVM_BLOCKS`, the ECC block's own id.
- `SetAttribute` discards its validation result, so it always reports success.
- A write ignores a failed erase.
- The decode result is truncated to a byte.
- A double-bit error is miscorrected into a third flipped bit, or, when one of the two
  flips is the uncovered last bit, left half repaired.
- The erased check looks at the first byte of the page only.
- A freshly erased page is "repaired" on its first scan.
- The NVM and the flash simulator disagree on the flash size.

## Model

| member | source | states |
|---|---|---|
| Statuses.Status.Code | src/gpNvm.c:43-49 | every status code is below 5, and only `GPNVM_OK` has code 0 |
| Statuses.CodesDistinct | src/gpNvm.c:43-49 | two statuses have the same code exactly when they are the same status |
| Bits.SpliceRestore | src/gpNvm.c:179-189 | splicing back the bytes a splice replaced restores the original sequence |
| Bits.SpliceReadBack | src/gpNvm.c:187-189 | the range just copied into reads back as the copied bytes |
| Bits.SpliceDisjoint | src/gpNvm.c:214-218 | a later copy into a disjoint range keeps an earlier copy's bytes |
| Bits.SplicePrefixKept | src/gpNvm.c:214-218 | a later copy that starts inside an earlier one keeps the earlier bytes before its start |
| NvmMap.PageCount | include/gpNvmMap.h:19-20 | the number of pages is the smallest page count that covers the NVM's flash size |
| NvmMap.MapIsValid | src/gpNvm.c:24-34 | the configured map obeys the configuration rules: every block lies in flash, is at most 0xFF long, stays within one page, and no two blocks overlap, user blocks stay below the reserved last 0x100 bytes, and the ECC block holds a two-byte slot for every page |
| NvmMap.MapPages | test/gpNvmMap.c:23-46 | blocks 0 and 1 share page 0, block 2 is on page 1, the ECC block is on the last page, and no user block shares the ECC block's page |
| Hamming.FlipBit | src/hamming.c:63 | flipping bit `k` inverts exactly bit `k` and keeps the length |
| Hamming.FlipBitTwice | src/hamming.c:63 | flipping the same bit twice restores the bytes |
| Hamming.FlipBitByte | src/hamming.c:63 | flipping bit `k` toggles bit `k % 8` of byte `k / 8` |
| Hamming.CountRun | src/hamming.c:30-34 | the innermost loop adds the set bits of one run of covered positions, clipped at the page end |
| Hamming.CountCoveredOnes | src/hamming.c:28-35 | the nested loops count exactly the set data bits that parity bit `i` covers |
| Hamming.ComputedParityBits | src/hamming.c:36-39 | bits 0..13 of the computed record are the page's odd-parity bits, and bits 14 and 15 are clear |
| Hamming.PackFromBits | src/hamming.c:37-39 | each bit set by the setting loop is the corresponding parity bit, and no other bit is set |
| Hamming.ClearedRecord | src/hamming.c:21-23 | the clearing loop zeroes byte 0 and bits 0..5 of byte 1, and keeps bits 6 and 7 |
| Hamming.ClearedByteMask | src/hamming.c:22 | clearing bits `0..n-1` one at a time equals masking with the complement of the low `n` bits |
| Hamming.CalculatedRecord | src/hamming.c:20-41 | starting from any record, both loops leave byte 0 equal to the computed parity and keep the caller's bits 14 and 15 |
| Hamming.SetParityBytes | src/hamming.c:36-39 | after `n` rounds of the setting loop, byte 0 holds the first `min(n, 8)` parity bits over its old value, and byte 1 the rest |
| Hamming.SetRecordBit | src/hamming.c:38 | setting bit `i` of the record touches byte 0 for `i < 8` and byte 1 (at bit `i - 8`) otherwise, leaving the other byte alone |
| Hamming.CalculateParityBits | src/hamming.c:20-41 | writes the computed parity into the record's 14 low bits, keeps bits 14 and 15, and leaves the data untouched |
| Hamming.SyndromeUpTo | src/hamming.c:47-60 | a syndrome accumulated over `m` parity bits is below `2^m` |
| Hamming.SyndromeWeight | src/hamming.c:48-59 | one round of the syndrome loop adds exactly what parity bit `i` contributes to the syndrome |
| Hamming.ParityMismatch | src/hamming.c:48-57 | one round of the syndrome loop reports whether the recounted parity bit differs from the stored one |
| Hamming.ComputeSyndrome | src/hamming.c:45-60 | the syndrome loop returns the sum of `2^i` over all mismatching parity bits |
| Hamming.DecodeAndCorrect | src/hamming.c:44-67 | returns the syndrome truncated to a byte when it names a data bit and 0 otherwise, corrects the data as `Corrected` says, and never writes the parity |
| Hamming.FlipCoveredOnes | src/hamming.c:31 | flipping bit `k` changes the covered-ones count by one exactly when `k` is covered and counted |
| Hamming.FlipParityBit | src/hamming.c:29-37 | flipping data bit `k` inverts exactly the parity bits that cover `k` |
| Hamming.SyndromeOfConsistent | src/hamming.c:47-60 | a record matching its page gives a zero partial syndrome |
| Hamming.NoErrorDecode | src/hamming.c:62-66 | a clean page decodes to 0 and is left unchanged |
| Hamming.SyndromeOfFlip | src/hamming.c:47-60 | after one flip at `k`, the partial syndrome is the low `m` bits of `k + 1` |
| Hamming.SingleErrorSyndrome | src/hamming.c:47-60 | one flipped data bit `k` gives syndrome `(k + 1) mod 2^14` |
| Hamming.SingleErrorCorrection | src/hamming.c:44-66 | one flipped bit whose position fits in 14 bits is located and corrected, and the result is that position truncated to a byte |
| Hamming.LastBitUndetected | src/hamming.c:15-17 | a flip of the page's last bit (position 16384 = 2^14) gives syndrome 0, so it goes undetected and uncorrected |
| Hamming.DecodeFlipsAtMostOneBit | src/hamming.c:62-63 | decoding changes at most one bit of the page |
| Hamming.DoubleErrorMiscorrected | src/hamming.c:44-66 | with two bits `a`, `b` flipped on a page whose record matches, and `c` the bit that position `(a+1) XOR (b+1)` names, the syndrome is `c + 1`; the decoder flips `c`, reports `(c + 1) mod 256`, and leaves the page wrong in exactly bits `a`, `b` and `c` |
| Hamming.DoubleErrorWithLastBit | src/hamming.c:44-66 | with bit 16383 and a bit `b` below it flipped on a page whose record matches, the syndrome is `b + 1`, the result is `(b + 1) mod 256`, and the decoder repairs `b` but leaves bit 16383 wrong |
| Hamming.LastBitUncovered | src/hamming.c:26-34 | none of the 14 parity bits covers data bit 16383, because position 2^14 has none of its low 14 bits set |
| Hamming.AdjacentDoubleError | src/hamming.c:44-66 | flips of bits 0 and 1 give syndrome 3 and result 3, and the "corrected" page also has bit 2 flipped, so it differs from the original |
| Hamming.CoveredFirstThree | src/hamming.c:29-30 | positions 1 and 3 are covered only by parity bit 0, and positions 2 and 3 only by parity bit 1 |
| Hamming.TruncatedResult | src/hamming.c:62-64 | a correction at a position that is a multiple of 256 is carried out but reported as 0 |
| Hamming.Bit255CorrectedButUnreported | src/hamming.c:62-64 | a flip of bit 255 is corrected in the buffer, yet the decoder returns 0 |
| Hamming.ErasedParityBit | src/hamming.c:26-39 | every parity bit of an all-0xFF page is even |
| Hamming.ErasedPageParity | src/hamming.c:20-41 | an all-0xFF page has parity record [0, 0] |
| Hamming.ErasedSyndrome | src/hamming.c:47-60 | an all-0xFF page read against an erased 0xFFFF record mismatches every parity bit |
| Hamming.ErasedPageDecode | src/hamming.c:44-66 | an erased page with an erased record gives syndrome 16383, has byte 0x7FF turned into 0xBF, and reports 255 |
| Hamming.FullSyndrome | src/hamming.c:57-58 | a syndrome of `2^m - 1` means every one of the first `m` parity bits mismatched |
| Hamming.FlippedErasedParity | src/hamming.c:20-41 | that "corrected" erased page has parity record [0xFF, 0x3F] |
| Hamming.FlippedErasedSyndrome | src/hamming.c:47-60 | the erased page with bit 16382 cleared, read against a zero record, gives syndrome `2^14 - 1` |
| Hamming.FlippedErasedBitsOdd | src/hamming.c:26-39 | every parity bit of that page is odd |
| Hamming.AllOddRecord | src/hamming.c:36-39 | a page whose 14 parity bits are all odd has parity record [0xFF, 0x3F] |
| Flash.PageStartOf | src/flash.c:99 | the page start is page-aligned and at most `addr`, and `addr` lies within its page |
| Flash.PageInWindow | src/flash.c:17-20 | the page of an in-window address lies entirely in the window |
| Flash.MemoryIndex | src/flash.c:33-35 | the index of `addr` in `Memory` is its offset from `FLASH_START`, in range exactly when `addr < FLASH_END` |
| Flash.WriteStatus | src/flash.c:116-125 | out-of-bounds overrides parameter errors, which override a non-erased page, and OK means none of them |
| Flash.EraseStatus | src/flash.c:136-142 | erase succeeds exactly on `[FLASH_START, FLASH_END]` (end inclusive) and otherwise reports out of bounds, since NULL is out of bounds too |
| Flash.ReadStatus | src/flash.c:153-160 | a read succeeds exactly when the range lies in flash and neither pointer is NULL nor the length zero, and out-of-bounds wins over parameter errors |
| Flash.ErasedCheckIsWeak | src/flash.c:97-108 | a page whose first byte is 0xFF counts as erased even when another byte is not |
| Flash.FlashDevice.constructor | src/flash.c:29 | the device starts with zeroed memory, as a C global does |
| Flash.FlashDevice.MemoryInit | src/flash.c:110-113 | every byte of flash becomes 0xFF |
| Flash.FlashDevice.IsPageErased | src/flash.c:97-108 | the loop reports whether the first byte of the address's page is 0xFF |
| Flash.FlashDevice.FlashWrite | src/flash.c:115-133 | the status is `WriteStatus` with both probes of the erased check; on OK, exactly bytes `addr .. addr+len` take `data`; otherwise memory is unchanged |
| Flash.FlashDevice.FlashErasePage | src/flash.c:135-150 | on OK, the whole page of `addr` becomes 0xFF and nothing else changes; otherwise memory is unchanged |
| Flash.FlashDevice.FlashReadData | src/flash.c:152-165 | memory is never changed; on OK, the buffer's first `length` bytes equal the flash range; nothing else in the buffer changes |
| Nvm.Placement | test/gpNvmMap.c:23-46 | the page starts and in-page offsets of the four configured blocks |
| Nvm.BlockLength | test/gpNvmMap.c:23-46 | every configured block is between 1 and 0xFF bytes long, so its length fits the `UInt8` length |
| Nvm.BlockInFlash | test/gpNvmMap.c:23-46 | every configured block lies inside the flash window |
| Nvm.BlockBytesAt | src/gpNvm.c:157 | the bytes of a block are the memory range from its start for its length |
| Nvm.PageStart | src/gpNvm.c:85-87 | the page start of a block is page-aligned, contains the block, and lies in flash |
| Nvm.PageNo | src/gpNvm.c:74 | the page number, taken modulo 256 as in the `UInt8` variable, is below the page count and locates the page start |
| Nvm.ParityAddr | src/gpNvm.c:72-78 | the parity slot is the ECC block start plus two bytes per page number, and lies on the ECC block's page |
| Nvm.ParitySlotsDisjoint | src/gpNvm.c:72-78 | blocks on the same page share a slot, and slots of different pages do not overlap |
| Nvm.SlotAddresses | src/gpNvm.c:72-78 | blocks 0 and 1 (both on page 0) use slot 0x81F00, block 2 (page 1) uses 0x81F02, and the ECC block (page 3) uses 0x81F06 |
| Nvm.GetPageStartAddr | src/gpNvm.c:85-87 | returns `PageStart(id)` |
| Nvm.EccGetPageParityAddr | src/gpNvm.c:72-78 | returns `ParityAddr(id)` |
| Nvm.EccWritesFit | src/gpNvm.c:118-129 | the page and the parity slot that the ECC pass writes are in flash and within one page |
| Nvm.Written | src/gpNvm.c:185-189 | a page rewrite leaves a valid memory image |
| Nvm.ScanAndFix | src/gpNvm.c:109-124 | the scan-and-fix pass yields a valid memory image |
| Nvm.UpdateParity | src/gpNvm.c:125-130 | the parity update yields a valid memory image |
| Nvm.SetMemory | src/gpNvm.c:209-219 | scan, write, then parity update yields a valid memory image |
| Nvm.WriteThenUpdate | src/gpNvm.c:214-218 | the write of the value followed by the parity update yields a valid memory image |
| Nvm.GetStatus | src/gpNvm.c:146-151 | a NULL pointer gives a parameter error even for a bad id; an id above `GPNVM_BLOCKS` gives `INCORRECT_ID`; otherwise OK, so id `GPNVM_BLOCKS` passes |
| Nvm.SetValidation | src/gpNvm.c:203-208 | the result `SetAttribute` computes and then discards: a parameter error for NULL, zero or too long, and otherwise OK; its `INCORRECT_ID` branch is never taken for an id the table can index |
| Nvm.WriteFlash | src/gpNvm.c:172-192 | the status is that of reading the address's page; on OK, exactly `length` bytes at `addr` take the new value, since the ignored erase status cannot matter; otherwise memory is unchanged |
| Nvm.ErasePatchWrite | src/gpNvm.c:180-189 | erase, copy into the backup and rewrite report OK and leave exactly `length` bytes at `addr` replaced by the new value |
| Nvm.PatchAndWrite | src/gpNvm.c:185-189 | after the erase, the patched backup is written over the page: the page becomes the backup with the value at the offset |
| Nvm.WriteErasedPage | src/gpNvm.c:189 | writing a whole buffer to a page whose first byte is 0xFF succeeds and replaces exactly that page |
| Nvm.ErasedPageProbes | src/flash.c:115-125 | both probes of the erased check pass on such a page, so `flashWrite` of the whole page reports OK |
| Nvm.SpliceBuffer | src/gpNvm.c:187 | the copy into the page backup replaces exactly `length` bytes at the offset |
| Nvm.RewritePage | src/gpNvm.c:179-189 | erasing a page and then rewriting it from the patched backup equals writing the new bytes in place |
| Nvm.PageOffsets | src/gpNvm.c:177-185 | the in-page offset is `addr mod PAGE_SIZE`, and page starts are fixed points |
| Nvm.EccUpdate | src/gpNvm.c:95-134 | the memory afterwards is `ScanAndFix` or `UpdateParity` of the memory before, by operation |
| Nvm.ReadPageBackup | src/gpNvm.c:107-108 | the page backup read of a block's whole page succeeds, and the buffer then holds exactly that block's page |
| Nvm.EccFixPage | src/gpNvm.c:109-124 | decodes the page backup against its slot and, on a nonzero result, writes the new parity and then the corrected page: `ScanAndFix` |
| Nvm.EccRewrite | src/gpNvm.c:116-122 | writes the recomputed parity and then the corrected page |
| Nvm.EccWriteParity | src/gpNvm.c:125-130 | writes the page's computed parity to its slot: `UpdateParity` |
| Nvm.GetAttribute | src/gpNvm.c:143-164 | the status is `GetStatus`; on error nothing changes; on OK the page is scan-and-fixed, the caller's buffer receives the block from the fixed memory, and `*pLength` receives the block length |
| Nvm.ReadFixedBlock | src/gpNvm.c:152-162 | the scan-and-fix pass and then the read: the buffer holds the block of the fixed memory and `*pLength` its length |
| Nvm.ReadBlock | src/gpNvm.c:157-161 | the read of a block succeeds, copies exactly its bytes, leaves memory alone and stores its length |
| Nvm.LengthByteRoundTrip | src/gpNvm.c:160 | storing a block length in the `UInt8` `*pLength` loses nothing |
| Nvm.SetAttribute | src/gpNvm.c:200-222 | always returns OK; the memory afterwards is `SetMemory`: scan-and-fix, write of the value at the block start, then parity update |
| Nvm.BlockWriteFits | src/gpNvm.c:214 | the page of a block start can be read, and a write of up to 255 bytes at the block start fits in the page backup |
| NvmProperties.FlipInPage | test/test.cpp:94-96 | a single flipped data bit in a block's page leaves a valid memory image |
| NvmProperties.FlipInPageViews | test/test.cpp:94-96 | the flip changes the page at exactly that bit and leaves the parity slot alone |
| NvmProperties.SlotBeyondUserPage | src/gpNvm.c:32-34 | a user block's parity slot lies outside its page and inside flash |
| NvmProperties.UpdateParityEffect | src/gpNvm.c:125-130 | a parity update makes the page consistent, keeps the page, and changes only the two slot bytes |
| NvmProperties.ConsistentScanIsIdentity | src/gpNvm.c:109-124 | scan-and-fix of a consistent page changes nothing |
| NvmProperties.ScanIdempotent | src/gpNvm.c:109-124 | on a user block, a second scan-and-fix changes nothing, so two gets with no write between them leave the same memory and return the same bytes and status |
| NvmProperties.SlotThenPageReadBack | src/gpNvm.c:118-121 | after the record is written to the slot and then the page, the slot holds the record and the page holds the page |
| NvmProperties.SetMemoryEffect | src/gpNvm.c:200-222 | after a set, the block starts with the value, the page is consistent, and every other byte is as scan-and-fix left it |
| NvmProperties.SetAsSplices | src/gpNvm.c:214-218 | the write and the parity update are a copy of the value to the block start followed by a copy of the new page record to the slot |
| NvmProperties.SetWritesBlock | src/gpNvm.c:214-218 | after the write and the parity update, the block starts with the value |
| NvmProperties.BlockSurvivesSlot | src/gpNvm.c:214-218 | writing a record to a user block's slot after the value keeps the value, since the slot lies beyond the page |
| NvmProperties.SetKeepsOthers | src/gpNvm.c:214-218 | the write and the parity update change no byte outside the value's range and the slot |
| NvmProperties.SetIsConsistent | src/gpNvm.c:214-218 | after the write and the parity update, the page's record matches the page |
| NvmProperties.SetThenGet | src/gpNvm.c:143-164 | after setting a full-length value, a get changes nothing and returns that value |
| NvmProperties.SelfHealing | src/gpNvm.c:109-124 | on a consistent page, one flipped data bit whose position is below 2^14 and not a multiple of 256 is repaired and persisted, restoring memory exactly |
| NvmProperties.UnreportedRepairLost | src/gpNvm.c:113 | when the flipped position is a multiple of 256, the repair is discarded and the corruption stays in flash |
| NvmProperties.WrittenBack | src/gpNvm.c:121 | writing the original page back over a page with one flipped bit restores the memory |
| NvmProperties.RewriteStoredParity | src/gpNvm.c:118 | writing a page's stored record back to its slot changes nothing |
| NvmProperties.RewriteSameBytes | src/gpNvm.c:172-192 | writing bytes that are already in place changes nothing |
| NvmProperties.TestScenario | test/test.cpp:86-105 | the ECC test: after `SetAttribute(1, 0xFF, data)` block 1 holds `data` and a get changes nothing; after `^= 0x01` on byte `o < 0xFF` (page bit `0x800 + 8o`) the block reads `data[o] ^ 0x01`, and the next get restores the memory written by the set |
| NvmProperties.LowBitFlipRead | test/test.cpp:96-98 | after the set, flipping bit 0 of byte `o` of block 1 makes the block read that byte of `data` with bit 0 toggled |
| NvmProperties.LowBitFlipHealed | test/test.cpp:100-105 | after the set, scan-and-fix undoes that flip exactly |
| NvmProperties.LowBitPosition | src/gpNvm.c:113 | the 1-based position `0x801 + 8o` of that bit is below 2^14 and not a multiple of 256, so the repair is reported |
| NvmProperties.BlockOneBitFlip | test/test.cpp:83-96 | flipping page bit `0x800 + 8o + b` toggles bit `b` of byte `o` of block 1 |
| NvmProperties.FlipInPageByte | test/test.cpp:96 | flipping data bit `k` of a page toggles bit `k % 8` of page byte `k / 8` |
| NvmProperties.TestScenarioBit7Fails | test/test.cpp:94-105 | the same test with `^= 0x80` fails for every byte `o` with `(o + 1) % 32 == 0` (page bit `0x807 + 8o`): the get leaves the flip in flash, and the block reads `data[o] ^ 0x80`, which differs from `data[o]` |
| NvmProperties.TopBitFlipStays | src/gpNvm.c:113 | after the set, scan-and-fix leaves a flip of bit 7 of byte `o` of block 1 in flash when `(o + 1) % 32 == 0` |
| NvmProperties.TopBitFlipRead | test/test.cpp:96-100 | after the set and that flip, the block reads that byte of `data` with bit 7 toggled |
| NvmProperties.TopBitPosition | src/gpNvm.c:113 | for such `o`, the 1-based position `0x808 + 8o` is below 2^14 and a multiple of 256 |
| NvmProperties.FreshPageFirstScan | src/gpNvm.c:109-124 | on an all-0xFF flash, the first scan of a page rewrites its last byte as 0xBF and its slot as [0xFF, 0x3F], while the block still reads 0xFF |
| NvmProperties.FreshScanWrites | src/gpNvm.c:113-122 | the first scan of an erased page writes record [0xFF, 0x3F] to the slot and then the page with byte 0x7FF turned into 0xBF |
| NvmProperties.ErasedRewrite | src/gpNvm.c:118-121 | on erased flash those two writes change exactly two bytes: the page's last byte and the slot's second byte |
| NvmProperties.FreshBlockUntouched | test/gpNvmMap.c:23-46 | neither changed byte lies in the user block, so the block still reads 0xFF |
| NvmProperties.EccIdSetOverwritesSlots | src/gpNvm.c:203-214 | `GPNVM_BLOCKS` passes the id check, and setting it writes the caller's bytes over the parity slots of pages 0 and 1 |
| NvmProperties.EccBlockOverSlots | src/gpNvm.c:214-218 | copying 0xFF bytes to the ECC block and then a record to slot 0x81F06 leaves the first four copied bytes in the slots of pages 0 and 1 |
| NvmProperties.GeometryMismatch | include/gpNvmMap.h:19-22 | the NVM's flash end is one byte short of the simulator's, and the ECC block ends at the NVM's end, not at the last flash byte |

## Left out

- File persistence (`readFromFile`, `saveMemoryToFile`, `parse_memory_line`): these
  are file I/O. Saving is not modelled. The initial contents a file would load are
  any memory image the lemmas quantify over.
- `storeParityExternally` only prints the record, so it is left out.
- The test harness's random numbers are universally quantified parameters (`data`,
  `o`) instead.
- The ECC test may also flip byte 0xFF. That byte lies past block 1, where
  `readData[0xFF]` is outside the buffer, so that case is not modelled.
- Concurrency, interrupts and real flash timing are outside the model; the simulator
  is a plain array.
- Raw pointers are numbers (absolute addresses, 0 for NULL), and buffers are arrays.
  Pointer arithmetic outside the flash window, and buffers that alias `Memory`, are
  excluded by preconditions.
- `Flash.FlashDevice.FlashWrite` requires both probe addresses of the erased check
  inside the window. Outside the window, `isPageErased` reads outside `Memory`, which
  is undefined behaviour. The precondition also covers the second probe when the
  first already fails, although C would skip it. So out-of-bounds and NULL writes are
  covered by `Flash.WriteStatus` but not by the method.
- `Flash.FlashDevice.FlashErasePage` requires `addr != FLASH_END`. That address passes
  the bounds check, but its page lies outside `Memory`.
- `Nvm.SetAttribute` requires `attrId <= GPNVM_BLOCKS` and a non-NULL value when
  `length > 0`. A larger id indexes past the map array, and `memcpy` from NULL is
  undefined behaviour. Its discarded validation is modelled as `Nvm.SetValidation`.
- `Nvm.GetAttribute` requires `attrId < 256`, the range of the `(UInt8)` cast. It
  also requires a value buffer that holds the block and a length cell of one byte.
- `Nvm.WriteFlash` requires that the write fits in its page whenever the page can be
  read. Otherwise the `memcpy` into the page backup overruns the buffer.
- The flash status codes and the NVM status codes share one `Statuses.Status` type,
  because the code passes flash codes through unchanged.
- There is no "uncorrectable error" status, in the code or in the model. The syndrome
  is always below 2^14 = 16384, the number of data bits, so it never lies beyond the
  page. Two flipped bits `a`, `b` below 16383 give syndrome `(a+1) XOR (b+1)`. The
  decoder flips the third bit that syndrome names and reports its position modulo 256,
  so a position that is a multiple of 256 is reported as 0
  (`Hamming.DoubleErrorMiscorrected`). If one of the two flips is bit 16383, which no
  parity bit covers, the syndrome names the other flip. That bit is repaired and bit
  16383 stays wrong (`Hamming.DoubleErrorWithLastBit`).
- `Nvm.EccUpdate`, `Nvm.GetAttribute` and `Nvm.SetAttribute` are proved only against
  the memory functions. Their properties across calls are lemmas about those
  functions in `NvmProperties`.
- The design comment asks for the ECC block to be the last 0x100 bytes of flash. The
  configured map places it at `GPNVM_FLASH_END - 0xFF` instead, 0xFF bytes long, and
  the code is followed (see `NvmProperties.GeometryMismatch`).
