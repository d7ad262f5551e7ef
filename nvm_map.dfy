/** The engine's configuration: the flash geometry it believes in, the number of
    attribute blocks, the ECC settings, and the constant block table. */
module NvmMap {

  // Geometry as the engine's configuration header declares it. The simulated device
  // declares a size of 0x2000 instead (see Flash.FLASH_SIZE and GeometryMismatch).
  const FLASH_SIZE := 0x1FFF
  const PAGE_SIZE := 0x800
  const FLASH_START := 0x80000
  const FLASH_END := FLASH_START + FLASH_SIZE

  /** Number of user attribute blocks. */
  const BLOCKS := 3

  // The ECC-enabled build: one 2-byte parity record per page, held in an extra
  // table entry placed right after the user blocks.
  const SINGLE_PAGE_ECC_SIZE := 2
  const ECC_BLOCK_ID := BLOCKS

  /** Reserved tail of flash that holds the parity records. */
  const ECC_RESERVED := 0x100

  /** One attribute descriptor: its start address and its length in bytes (an 8-bit field). */
  datatype Block = Block(startAddr: nat, length: nat)

  /** The block table. An attribute id is its position here. */
  const GpNvmMap: seq<Block> := [
    Block(0x80000, 0xA0),
    Block(0x80100, 0xFF),
    Block(0x80800, 0x80),
    Block(FLASH_END - 0xFF, 0xFF)  // parity records
  ]

  /** The last byte of the block lies in the same page as its first byte. */
  predicate WithinOnePage(b: Block)
  {
    b.length >= 1 && b.startAddr / PAGE_SIZE == (b.startAddr + b.length - 1) / PAGE_SIZE
  }

  predicate InsideFlash(b: Block)
  {
    FLASH_START <= b.startAddr && b.startAddr + b.length <= FLASH_END
  }

  predicate Disjoint(b: Block, c: Block)
  {
    b.startAddr + b.length <= c.startAddr || c.startAddr + c.length <= b.startAddr
  }

  /** Number of pages that the flash window `[FLASH_START, FLASH_END)` touches. */
  function PageCount(): (n: nat)
    ensures (n - 1) * PAGE_SIZE < FLASH_SIZE <= n * PAGE_SIZE
  {
    (FLASH_SIZE + PAGE_SIZE - 1) / PAGE_SIZE
  }

  /** The configuration rules the engine's header comment lists, over a whole table. */
  predicate ValidMap(m: seq<Block>)
  {
    && |m| == BLOCKS + 1
    && (forall id :: 0 <= id < |m| ==> m[id].length <= 0xFF && WithinOnePage(m[id]) && InsideFlash(m[id]))
    && (forall a, b :: 0 <= a < b < |m| ==> Disjoint(m[a], m[b]))
    && m[ECC_BLOCK_ID] == Block(FLASH_END - 0xFF, 0xFF)
    && (forall id :: 0 <= id < BLOCKS ==> m[id].startAddr + m[id].length <= FLASH_END - ECC_RESERVED)
    && PageCount() * SINGLE_PAGE_ECC_SIZE <= m[ECC_BLOCK_ID].length
  }

  /** The shipped table satisfies every configuration rule. */
  lemma MapIsValid()
    ensures ValidMap(GpNvmMap)
  {
  }

  /** Pages of the four blocks: user blocks 0 and 1 share page 0, block 2 is in page 1,
      and the parity block is in the last page, which no user block touches. */
  lemma MapPages()
    ensures GpNvmMap[0].startAddr / PAGE_SIZE == GpNvmMap[1].startAddr / PAGE_SIZE
    ensures (GpNvmMap[2].startAddr - FLASH_START) / PAGE_SIZE == 1
    ensures (GpNvmMap[ECC_BLOCK_ID].startAddr - FLASH_START) / PAGE_SIZE == PageCount() - 1
    ensures forall id :: 0 <= id < BLOCKS ==> GpNvmMap[id].startAddr / PAGE_SIZE != GpNvmMap[ECC_BLOCK_ID].startAddr / PAGE_SIZE
  {
  }
}
