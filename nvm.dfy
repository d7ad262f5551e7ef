/** The attribute engine: page-start and parity-slot arithmetic, the read-erase-splice-rewrite
    helper, the ECC scan-and-fix / update-parity step, and `GetAttribute` / `SetAttribute`.

    The engine works on a `Flash.FlashDevice`, the one global `Memory` of the C program. Each
    state-changing method is specified by a function on the memory contents
    (`ScanAndFix`, `UpdateParity`, `SetMemory`), and the lemmas at the end state what the
    engine promises about those functions. */
module Nvm {
  import opened Bits
  import opened Statuses
  import NvmMap
  import Hamming
  import Flash

  const PAGE_SIZE := NvmMap.PAGE_SIZE
  const FLASH_START := NvmMap.FLASH_START
  const BLOCKS := NvmMap.BLOCKS
  const ECC_BLOCK_ID := NvmMap.ECC_BLOCK_ID

  /** The two `operation` values `eccUpdate` understands. */
  datatype EccOperation = EccScanAndFix | EccUpdateParity

  /** Contents of the flash device. */
  predicate IsMemory(mem: seq<bv8>)
  {
    |mem| == Flash.FLASH_SIZE
  }

  // ---------------------------------------------------------------------------------
  // Address arithmetic

  /** Where each table entry sits: start of its page and of its parity slot. Ids 0 and 1
      share page 0, id 2 is on page 1 and the parity block (id 3) on page 3. */
  lemma Placement(id: nat)
    requires id <= BLOCKS
    ensures var b := NvmMap.GpNvmMap[id];
      && b.startAddr / PAGE_SIZE * PAGE_SIZE == [0x80000, 0x80000, 0x80800, 0x81800][id]
      && b.startAddr % PAGE_SIZE == [0x000, 0x100, 0x000, 0x700][id]
      && 1 <= b.length <= 0xFF
  {
  }

  /** Every table entry is between 1 and 255 bytes long, so its length fits a `UInt8`. */
  lemma BlockLength(id: nat)
    requires id <= BLOCKS
    ensures 1 <= NvmMap.GpNvmMap[id].length <= 0xFF
  {
  }

  /** `gpNvm_GetPageStartAddr(attrId)`: the start of the page holding the block. */
  function PageStart(id: nat): (r: nat)
    requires id <= BLOCKS
    ensures var b := NvmMap.GpNvmMap[id];
      && r % PAGE_SIZE == 0
      && r <= b.startAddr < r + PAGE_SIZE
      && b.startAddr + b.length <= r + PAGE_SIZE
    ensures FLASH_START <= r && r + PAGE_SIZE <= Flash.FLASH_END
  {
    Placement(id);
    NvmMap.GpNvmMap[id].startAddr / PAGE_SIZE * PAGE_SIZE
  }

  /** Page number of the block: `(pageStart - GPNVM_FLASH_START) / GPNVM_PAGE_SIZE`, kept
      in a `UInt8`. */
  function PageNo(id: nat): (n: nat)
    requires id <= BLOCKS
    ensures n < NvmMap.PageCount()
    ensures PageStart(id) == FLASH_START + n * PAGE_SIZE
  {
    Placement(id);
    ((PageStart(id) - FLASH_START) / PAGE_SIZE) % 256
  }

  /** `eccGetPageParityAddr(attrId)`: the 2-byte parity slot of the block's page, inside the
      parity block. */
  function ParityAddr(id: nat): (r: nat)
    requires id <= BLOCKS
    ensures var ecc := NvmMap.GpNvmMap[ECC_BLOCK_ID];
      && r == ecc.startAddr + NvmMap.SINGLE_PAGE_ECC_SIZE * ((PageStart(id) - FLASH_START) / PAGE_SIZE)
      && ecc.startAddr <= r && r + NvmMap.SINGLE_PAGE_ECC_SIZE <= ecc.startAddr + ecc.length
    ensures PageStart(ECC_BLOCK_ID) <= r && r % PAGE_SIZE + NvmMap.SINGLE_PAGE_ECC_SIZE <= PAGE_SIZE
  {
    Placement(id);
    NvmMap.GpNvmMap[ECC_BLOCK_ID].startAddr + PageNo(id) * NvmMap.SINGLE_PAGE_ECC_SIZE
  }

  /** The parity slots of the configured table: page 0 (ids 0 and 1) at 0x81F00, page 1
      (id 2) at 0x81F02 and page 3 (the parity block) at 0x81F06. */
  lemma SlotAddresses()
    ensures ParityAddr(0) == ParityAddr(1) == 0x81F00
    ensures ParityAddr(2) == 0x81F02 && ParityAddr(ECC_BLOCK_ID) == 0x81F06
  {
    Placement(0);
    Placement(1);
    Placement(2);
    Placement(ECC_BLOCK_ID);
  }

  /** Blocks on the same page share one parity slot; blocks on different pages get
      disjoint slots. */
  lemma ParitySlotsDisjoint(a: nat, b: nat)
    requires a <= BLOCKS && b <= BLOCKS
    ensures PageStart(a) == PageStart(b) ==> ParityAddr(a) == ParityAddr(b)
    ensures PageStart(a) != PageStart(b) ==>
      ParityAddr(a) + NvmMap.SINGLE_PAGE_ECC_SIZE <= ParityAddr(b) || ParityAddr(b) + NvmMap.SINGLE_PAGE_ECC_SIZE <= ParityAddr(a)
  {
    var na, nb := PageNo(a), PageNo(b);
    if PageStart(a) != PageStart(b) {
      assert na != nb;
    }
  }

  // ---------------------------------------------------------------------------------
  // Views of the memory

  /** The 2048 bytes of the page starting at `ps`. */
  function PageBytes(mem: seq<bv8>, ps: nat): (p: seq<bv8>)
    requires IsMemory(mem) && FLASH_START <= ps && ps + PAGE_SIZE <= Flash.FLASH_END
    ensures |p| == PAGE_SIZE
  {
    mem[ps - FLASH_START .. ps - FLASH_START + PAGE_SIZE]
  }

  /** The page that holds block `id`. */
  function BlockPage(mem: seq<bv8>, id: nat): (p: seq<bv8>)
    requires IsMemory(mem) && id <= BLOCKS
    ensures |p| == PAGE_SIZE
  {
    PageBytes(mem, PageStart(id))
  }

  /** The parity record stored for the page of block `id`. */
  function StoredParity(mem: seq<bv8>, id: nat): (r: seq<bv8>)
    requires IsMemory(mem) && id <= BLOCKS
    ensures |r| == Hamming.PARITY_BYTES
  {
    var at := ParityAddr(id) - FLASH_START;
    mem[at .. at + NvmMap.SINGLE_PAGE_ECC_SIZE]
  }

  /** The bytes of block `id`. */
  function BlockBytes(mem: seq<bv8>, id: nat): (r: seq<bv8>)
    requires IsMemory(mem) && id <= BLOCKS
    ensures |r| == NvmMap.GpNvmMap[id].length
  {
    var b := NvmMap.GpNvmMap[id];
    mem[b.startAddr - FLASH_START .. b.startAddr - FLASH_START + b.length]
  }

  /** Every block lies inside the flash window. */
  lemma BlockInFlash(id: nat)
    requires id <= BLOCKS
    ensures var b := NvmMap.GpNvmMap[id];
      FLASH_START <= b.startAddr && b.startAddr + b.length <= Flash.FLASH_END && 1 <= b.length <= 0xFF
  {
  }

  /** The block lies in the window and its bytes are the memory slice at its offset. */
  lemma BlockBytesAt(mem: seq<bv8>, id: nat)
    requires IsMemory(mem) && id <= BLOCKS
    ensures var b := NvmMap.GpNvmMap[id];
      && FLASH_START <= b.startAddr && b.startAddr + b.length <= Flash.FLASH_END && 1 <= b.length
      && BlockBytes(mem, id) == mem[b.startAddr - FLASH_START .. b.startAddr - FLASH_START + b.length]
  {
  }

  /** The parity record of the page of `id` matches the page: what every write leaves. */
  predicate Consistent(mem: seq<bv8>, id: nat)
    requires IsMemory(mem) && id <= BLOCKS
  {
    StoredParity(mem, id) == Hamming.ComputedParity(BlockPage(mem, id))
  }

  // ---------------------------------------------------------------------------------
  // Specifications of the state-changing steps

  /** Memory after `gpNvm_WriteFlash(addr, length, pValue)` when its page read succeeds:
      the erase and rewrite of the whole page leave everything but `[addr, addr + |v|)` as
      it was. */
  function Written(mem: seq<bv8>, addr: nat, v: seq<bv8>): (r: seq<bv8>)
    requires IsMemory(mem) && FLASH_START <= addr && addr - FLASH_START + |v| <= |mem|
    ensures IsMemory(r)
  {
    Splice(mem, addr - FLASH_START, v)
  }

  /** Memory after the scan-and-fix step of `eccUpdate(attrId, ECC_SCAN_AND_FIX)`: when
      `decodeAndCorrect` returns non-zero, the parity of the corrected page goes to the
      slot first and then the corrected page, as read at entry, goes back to flash. */
  function ScanAndFix(mem: seq<bv8>, id: nat): (r: seq<bv8>)
    requires IsMemory(mem) && id <= BLOCKS
    ensures IsMemory(r)
  {
    var page, record := BlockPage(mem, id), StoredParity(mem, id);
    if Hamming.DecodeResult(page, record) == 0 then mem
    else
      var fixed := Hamming.Corrected(page, record);
      var withParity := Written(mem, ParityAddr(id), Hamming.ComputedParity(fixed));
      Written(withParity, PageStart(id), fixed)
  }

  /** Memory after `eccUpdate(attrId, ECC_UPDATE_PARITY)`: the parity of the page as read at
      entry goes to the page's slot. */
  function UpdateParity(mem: seq<bv8>, id: nat): (r: seq<bv8>)
    requires IsMemory(mem) && id <= BLOCKS
    ensures IsMemory(r)
  {
    Written(mem, ParityAddr(id), Hamming.ComputedParity(BlockPage(mem, id)))
  }

  /** Memory after `gpNvm_SetAttribute(attrId, |v|, v)`: scan-and-fix, the write of `v` at
      the block start, then the parity update. */
  function SetMemory(mem: seq<bv8>, id: nat, v: seq<bv8>): (r: seq<bv8>)
    requires IsMemory(mem) && id <= BLOCKS && |v| <= 0xFF
    ensures IsMemory(r)
  {
    WriteThenUpdate(ScanAndFix(mem, id), id, v)
  }

  /** The part of the set after scan-and-fix: the write of `v` at the block start, then the
      parity update. */
  function WriteThenUpdate(fixed: seq<bv8>, id: nat, v: seq<bv8>): (r: seq<bv8>)
    requires IsMemory(fixed) && id <= BLOCKS && |v| <= 0xFF
    ensures IsMemory(r)
  {
    Placement(id);
    UpdateParity(Written(fixed, NvmMap.GpNvmMap[id].startAddr, v), id)
  }

  /** The status `gpNvm_GetAttribute` settles on before touching flash: the pointer check
      runs second, so it wins over the id check. The id check is `attrId > GPNVM_BLOCKS`, so
      the parity block's own id passes. */
  function GetStatus(id: nat, lengthNull: bool, valueNull: bool): (s: Status)
    ensures s == ParamErr <==> lengthNull || valueNull
    ensures s == IncorrectId <==> !lengthNull && !valueNull && id > BLOCKS
    ensures s == Ok <==> !lengthNull && !valueNull && id <= BLOCKS
  {
    var s0 := if id > BLOCKS then IncorrectId else Ok;
    if lengthNull || valueNull then ParamErr else s0
  }

  /** The validation status `gpNvm_SetAttribute` computes and then discards. Its
      `INCORRECT_ID` branch (src/gpNvm.c:203-205) is never taken for an id the map array can
      be indexed with, so for those ids only the parameter check remains. */
  function SetValidation(id: nat, length: nat, valueNull: bool): (s: Status)
    requires id <= BLOCKS
    ensures s == ParamErr <==> valueNull || length == 0 || length > NvmMap.GpNvmMap[id].length
    ensures s == Ok <==> !valueNull && 0 < length <= NvmMap.GpNvmMap[id].length
  {
    if valueNull || length == 0 || length > NvmMap.GpNvmMap[id].length then ParamErr else Ok
  }

  // ---------------------------------------------------------------------------------
  // The engine

  /** `gpNvm_WriteFlash(addr, length, pValue)`: reads the page holding `addr` into a scratch
      buffer, erases the page, splices `length` bytes of `pValue` in at `addr`'s offset and
      writes the whole buffer back. A failed page read stops it with that status; an erase
      failure would be overwritten by the write's status. */
  method WriteFlash(dev: Flash.FlashDevice, addr: nat, length: nat, pValue: array?<bv8>) returns (res: Status)
    requires dev.Valid() && length < 0x1_0000
    requires pValue != null ==> pValue.Length >= length && pValue != dev.Memory
    requires pValue == null ==> length == 0
    requires Flash.ReadStatus(Flash.PageStartOf(addr), false, PAGE_SIZE) == Ok ==> addr % PAGE_SIZE + length <= PAGE_SIZE
    modifies dev.Memory
    ensures res == Flash.ReadStatus(Flash.PageStartOf(addr), false, PAGE_SIZE)
    ensures res == Ok ==> FLASH_START <= addr && addr + length <= Flash.FLASH_END
    ensures res == Ok ==> dev.Memory[..] == Written(old(dev.Memory[..]), addr, if pValue == null then [] else pValue[..length])
    ensures res != Ok ==> dev.Memory[..] == old(dev.Memory[..])
  {
    var buffer := new bv8[PAGE_SIZE](_ => 0);
    var pageStart := addr / PAGE_SIZE * PAGE_SIZE;
    res := dev.FlashReadData(pageStart, buffer, PAGE_SIZE);
    if res == Ok {
      res := ErasePatchWrite(dev, addr, pageStart, buffer, pValue, length);
    }
  }

  /** The part of `gpNvm_WriteFlash` after the page backup has been read: erase the page,
      copy the new bytes into the backup at their offset, write the backup back. The page
      lies in flash, so the erase cannot fail (its status would be overwritten anyway) and
      the write finds the page erased. */
  method ErasePatchWrite(dev: Flash.FlashDevice, addr: nat, pageStart: nat, buffer: array<bv8>, pValue: array?<bv8>, length: nat)
    returns (res: Status)
    requires dev.Valid() && buffer.Length == PAGE_SIZE && buffer != dev.Memory
    requires pValue != null ==> pValue.Length >= length && pValue != dev.Memory && pValue != buffer
    requires pValue == null ==> length == 0
    requires pageStart == Flash.PageStartOf(addr) && FLASH_START <= pageStart && pageStart + PAGE_SIZE <= Flash.FLASH_END
    requires addr % PAGE_SIZE + length <= PAGE_SIZE
    requires buffer[..] == dev.Memory[pageStart - FLASH_START .. pageStart - FLASH_START + PAGE_SIZE]
    modifies dev.Memory, buffer
    ensures res == Ok
    ensures dev.Memory[..] == Written(old(dev.Memory[..]), addr, if pValue == null then [] else pValue[..length])
  {
    ghost var before := dev.Memory[..];
    ghost var value := if pValue == null then [] else pValue[..length];
    PageOffsets(addr);
    res := Ok;
    var erased := dev.FlashErasePage(addr);
    if erased != Ok {
      res := PageNotErased;
    }
    res := PatchAndWrite(dev, addr, pageStart, buffer, pValue, length);
    RewritePage(before, pageStart, addr, value);
  }

  /** The `memcpy` of the new bytes into the page backup and the write of the backup over
      the erased page, the last two steps of `gpNvm_WriteFlash`. */
  method PatchAndWrite(dev: Flash.FlashDevice, addr: nat, pageStart: nat, buffer: array<bv8>, pValue: array?<bv8>, length: nat)
    returns (res: Status)
    requires dev.Valid() && buffer.Length == PAGE_SIZE && buffer != dev.Memory
    requires pValue != null ==> pValue.Length >= length && pValue != dev.Memory && pValue != buffer
    requires pValue == null ==> length == 0
    requires FLASH_START <= pageStart <= addr && pageStart + PAGE_SIZE <= Flash.FLASH_END && pageStart % PAGE_SIZE == 0
    requires addr - pageStart + length <= PAGE_SIZE
    requires dev.Memory[pageStart - FLASH_START] == 0xFF
    modifies dev.Memory, buffer
    ensures res == Ok
    ensures dev.Memory[..] == Splice(old(dev.Memory[..]), pageStart - FLASH_START,
      Splice(old(buffer[..]), addr - pageStart, if pValue == null then [] else pValue[..length]))
  {
    var newDataPos := addr - pageStart;
    SpliceBuffer(buffer, newDataPos, pValue, length);
    res := WriteErasedPage(dev, pageStart, buffer);
  }

  /** The closing `flashWrite(pageStart, buffer, FLASH_PAGE_SIZE)` of `gpNvm_WriteFlash`:
      on a page whose first byte reads erased it succeeds and lays the buffer over the page. */
  method WriteErasedPage(dev: Flash.FlashDevice, pageStart: nat, buffer: array<bv8>) returns (res: Status)
    requires dev.Valid() && buffer.Length == PAGE_SIZE && buffer != dev.Memory
    requires FLASH_START <= pageStart && pageStart + PAGE_SIZE <= Flash.FLASH_END && pageStart % PAGE_SIZE == 0
    requires dev.Memory[pageStart - FLASH_START] == 0xFF
    modifies dev.Memory
    ensures res == Ok
    ensures dev.Memory[..] == Splice(old(dev.Memory[..]), pageStart - FLASH_START, buffer[..])
  {
    ErasedPageProbes(dev.Memory[..], pageStart);
    res := dev.FlashWrite(pageStart, buffer, PAGE_SIZE);
    assert buffer[..PAGE_SIZE] == buffer[..];
  }

  /** The page arithmetic of `gpNvm_WriteFlash`: `addr` sits `addr % PAGE_SIZE` bytes into
      its page, and the page's last byte is on the same page. */
  lemma PageOffsets(addr: nat)
    ensures addr - Flash.PageStartOf(addr) == addr % PAGE_SIZE
    ensures Flash.PageStartOf(Flash.PageStartOf(addr)) == Flash.PageStartOf(addr)
    ensures Flash.PageStartOf(Flash.PageStartOf(addr) + PAGE_SIZE - 1) == Flash.PageStartOf(addr)
  {
    var q := addr / PAGE_SIZE;
    DivMulAdd(q, PAGE_SIZE, addr % PAGE_SIZE);
    DivMulAdd(q, PAGE_SIZE, 0);
    DivMulAdd(q, PAGE_SIZE, PAGE_SIZE - 1);
  }

  /** A page whose first byte is 0xFF passes both probes of a whole-page write. */
  lemma ErasedPageProbes(mem: seq<bv8>, pageStart: nat)
    requires |mem| == Flash.FLASH_SIZE && FLASH_START <= pageStart && pageStart + PAGE_SIZE <= Flash.FLASH_END
    requires pageStart % PAGE_SIZE == 0 && mem[pageStart - FLASH_START] == 0xFF
    ensures Flash.ErasedProbes(mem, pageStart, PAGE_SIZE)
    ensures Flash.WriteStatus(pageStart, false, PAGE_SIZE, Flash.ErasedProbes(mem, pageStart, PAGE_SIZE)) == Ok
  {
    PageOffsets(pageStart);
  }

  /** The `memcpy` into the scratch buffer. */
  method SpliceBuffer(buffer: array<bv8>, at: nat, pValue: array?<bv8>, length: nat)
    requires at + length <= buffer.Length
    requires pValue != null ==> pValue.Length >= length && pValue != buffer
    requires pValue == null ==> length == 0
    modifies buffer
    ensures buffer[..] == Splice(old(buffer[..]), at, if pValue == null then [] else pValue[..length])
  {
    if length > 0 {
      forall i | 0 <= i < length {
        buffer[at + i] := pValue[i];
      }
    }
  }

  /** Erasing the page at `pageStart` and writing back its old bytes with `v` spliced in at
      `addr` is the same as writing `v` at `addr`. */
  lemma RewritePage(mem: seq<bv8>, pageStart: nat, addr: nat, v: seq<bv8>)
    requires IsMemory(mem) && FLASH_START <= pageStart <= addr && pageStart + PAGE_SIZE <= Flash.FLASH_END
    requires addr - pageStart + |v| <= PAGE_SIZE
    ensures var at := pageStart - FLASH_START;
      Splice(Splice(mem, at, Fill(PAGE_SIZE, 0xFF)), at, Splice(mem[at .. at + PAGE_SIZE], addr - pageStart, v))
        == Written(mem, addr, v)
  {
    var at := pageStart - FLASH_START;
    var lhs := Splice(Splice(mem, at, Fill(PAGE_SIZE, 0xFF)), at, Splice(mem[at .. at + PAGE_SIZE], addr - pageStart, v));
    var rhs := Splice(mem, addr - FLASH_START, v);
    forall k | 0 <= k < |mem|
      ensures lhs[k] == rhs[k]
    {
    }
  }

  /** `gpNvm_GetPageStartAddr(attrId)` */
  method GetPageStartAddr(id: nat) returns (r: nat)
    requires id <= BLOCKS
    ensures r == PageStart(id)
  {
    r := NvmMap.GpNvmMap[id].startAddr / PAGE_SIZE * PAGE_SIZE;
  }

  /** `eccGetPageParityAddr(attrId)` */
  method EccGetPageParityAddr(id: nat) returns (r: nat)
    requires id <= BLOCKS
    ensures r == ParityAddr(id)
  {
    var pageStart := GetPageStartAddr(id);
    var pageNo := ((pageStart - FLASH_START) / PAGE_SIZE) % 256;
    r := NvmMap.GpNvmMap[ECC_BLOCK_ID].startAddr + pageNo * NvmMap.SINGLE_PAGE_ECC_SIZE;
  }

  /** A write of up to 255 bytes at the start of a block stays on the block's page, which
      lies in the window: the write that `gpNvm_SetAttribute` issues always succeeds. */
  lemma BlockWriteFits(id: nat, length: nat)
    requires id <= BLOCKS && length < 256
    ensures var start := NvmMap.GpNvmMap[id].startAddr;
      && Flash.ReadStatus(Flash.PageStartOf(start), false, PAGE_SIZE) == Ok
      && start % PAGE_SIZE + length <= PAGE_SIZE
  {
    var start := NvmMap.GpNvmMap[id].startAddr;
    Placement(id);
    PageOffsets(start);
  }

  /** The two writes `eccUpdate` makes, to the page of block `id` and to its parity slot,
      both find their page inside the device window and fit on that page. */
  lemma EccWritesFit(id: nat)
    requires id <= BLOCKS
    ensures Flash.ReadStatus(Flash.PageStartOf(PageStart(id)), false, PAGE_SIZE) == Ok
    ensures PageStart(id) % PAGE_SIZE + PAGE_SIZE <= PAGE_SIZE
    ensures Flash.ReadStatus(Flash.PageStartOf(ParityAddr(id)), false, PAGE_SIZE) == Ok
    ensures ParityAddr(id) % PAGE_SIZE + NvmMap.SINGLE_PAGE_ECC_SIZE <= PAGE_SIZE
  {
    Placement(id);
    PageOffsets(PageStart(id));
    PageOffsets(ParityAddr(id));
    assert Flash.PageStartOf(ParityAddr(id)) == 0x81800;
  }

  /** `eccUpdate(attrId, operation)`. Every status it sees is dropped: the failure branch of
      the source is an empty "Callback" placeholder. */
  method EccUpdate(dev: Flash.FlashDevice, id: nat, operation: EccOperation)
    requires dev.Valid() && id <= BLOCKS
    modifies dev.Memory
    ensures dev.Memory[..] == match operation
      case EccScanAndFix => ScanAndFix(old(dev.Memory[..]), id)
      case EccUpdateParity => UpdateParity(old(dev.Memory[..]), id)
  {
    var pageStart := GetPageStartAddr(id);
    var buffer := new bv8[PAGE_SIZE](_ => 0);
    var parityAddr := EccGetPageParityAddr(id);
    var res := ReadPageBackup(dev, id, pageStart, buffer);
    if operation == EccScanAndFix {
      EccFixPage(dev, id, pageStart, parityAddr, buffer);
    } else {
      EccWriteParity(dev, id, parityAddr, buffer);
    }
  }

  /** The page backup of `eccUpdate`: the read of a block's whole page into `buffer`
      succeeds and leaves flash alone. */
  method ReadPageBackup(dev: Flash.FlashDevice, id: nat, pageStart: nat, buffer: array<bv8>) returns (res: Status)
    requires dev.Valid() && id <= BLOCKS && pageStart == PageStart(id)
    requires buffer.Length == PAGE_SIZE && buffer != dev.Memory
    modifies buffer
    ensures res == Ok && buffer[..] == BlockPage(dev.Memory[..], id)
  {
    EccWritesFit(id);
    res := dev.FlashReadData(pageStart, buffer, PAGE_SIZE);
    assert buffer[..] == buffer[..PAGE_SIZE];
  }

  /** The `ECC_SCAN_AND_FIX` arm of `eccUpdate`, from the page already read into `buffer`. */
  method EccFixPage(dev: Flash.FlashDevice, id: nat, pageStart: nat, parityAddr: nat, buffer: array<bv8>)
    requires dev.Valid() && id <= BLOCKS && pageStart == PageStart(id) && parityAddr == ParityAddr(id)
    requires buffer.Length == PAGE_SIZE && buffer != dev.Memory
    requires buffer[..] == BlockPage(dev.Memory[..], id)
    modifies dev.Memory, buffer
    ensures dev.Memory[..] == ScanAndFix(old(dev.Memory[..]), id)
  {
    ghost var mem, page := dev.Memory[..], buffer[..];
    EccWritesFit(id);
    var readParity := new bv8[NvmMap.SINGLE_PAGE_ECC_SIZE](_ => 0);
    var res := dev.FlashReadData(parityAddr, readParity, NvmMap.SINGLE_PAGE_ECC_SIZE);
    assert readParity[..] == StoredParity(mem, id);
    var decoded := Hamming.DecodeAndCorrect(buffer, readParity);
    if decoded != 0 {
      EccRewrite(dev, id, pageStart, parityAddr, buffer);
    }
  }

  /** The rewrite after a reported correction: fresh parity of the corrected page to the
      slot, then, only if that succeeded, the corrected page itself. */
  method EccRewrite(dev: Flash.FlashDevice, id: nat, pageStart: nat, parityAddr: nat, buffer: array<bv8>)
    requires dev.Valid() && id <= BLOCKS && pageStart == PageStart(id) && parityAddr == ParityAddr(id)
    requires buffer.Length == PAGE_SIZE && buffer != dev.Memory
    modifies dev.Memory
    ensures dev.Memory[..] == Written(Written(old(dev.Memory[..]), parityAddr, Hamming.ComputedParity(buffer[..])), pageStart, buffer[..])
  {
    EccWritesFit(id);
    var calculatedParity := new bv8[NvmMap.SINGLE_PAGE_ECC_SIZE](_ => 0);
    Hamming.CalculateParityBits(buffer, calculatedParity);
    assert calculatedParity[..NvmMap.SINGLE_PAGE_ECC_SIZE] == Hamming.ComputedParity(buffer[..]);
    var res := WriteFlash(dev, parityAddr, NvmMap.SINGLE_PAGE_ECC_SIZE, calculatedParity);
    if res == Ok {
      assert buffer[..PAGE_SIZE] == buffer[..];
      res := WriteFlash(dev, pageStart, PAGE_SIZE, buffer);
    }
  }

  /** The `ECC_UPDATE_PARITY` arm of `eccUpdate`, from the page already read into `buffer`. */
  method EccWriteParity(dev: Flash.FlashDevice, id: nat, parityAddr: nat, buffer: array<bv8>)
    requires dev.Valid() && id <= BLOCKS && parityAddr == ParityAddr(id)
    requires buffer.Length == PAGE_SIZE && buffer != dev.Memory
    requires buffer[..] == BlockPage(dev.Memory[..], id)
    modifies dev.Memory
    ensures dev.Memory[..] == UpdateParity(old(dev.Memory[..]), id)
  {
    EccWritesFit(id);
    var calculatedParity := new bv8[NvmMap.SINGLE_PAGE_ECC_SIZE](_ => 0);
    Hamming.CalculateParityBits(buffer, calculatedParity);
    assert calculatedParity[..NvmMap.SINGLE_PAGE_ECC_SIZE] == Hamming.ComputedParity(buffer[..]);
    var res := WriteFlash(dev, parityAddr, NvmMap.SINGLE_PAGE_ECC_SIZE, calculatedParity);
  }

  /** Every configured block length survives the store through the `UInt8` `*pLength`. */
  lemma LengthByteRoundTrip(id: nat)
    requires id <= BLOCKS
    ensures (NvmMap.GpNvmMap[id].length as bv8) as nat == NvmMap.GpNvmMap[id].length
  {
    var n := NvmMap.GpNvmMap[id].length;
    if n == 0xA0 {
      assert (0xA0 as bv8) as nat == 0xA0;
    } else if n == 0xFF {
      assert (0xFF as bv8) as nat == 0xFF;
    } else {
      assert n == 0x80;
      assert (0x80 as bv8) as nat == 0x80;
    }
  }

  /** `gpNvm_GetAttribute(attrId, pLength, pValue)`: on valid arguments, scan-and-fix of the
      block's page, then a copy of the whole block into `pValue`; `*pLength` is set only when
      that read succeeds. On an error nothing is read or written. */
  method GetAttribute(dev: Flash.FlashDevice, attrId: nat, pLength: array?<bv8>, pValue: array?<bv8>) returns (res: Status)
    requires dev.Valid() && attrId < 256
    requires pLength != null ==> pLength.Length == 1 && pLength != dev.Memory
    requires pValue != null ==> pValue != dev.Memory && pValue != pLength
    requires pValue != null && attrId <= BLOCKS ==> pValue.Length >= NvmMap.GpNvmMap[attrId].length
    modifies dev.Memory, pLength, pValue
    ensures res == GetStatus(attrId, pLength == null, pValue == null)
    ensures res != Ok ==> dev.Memory[..] == old(dev.Memory[..])
    ensures res != Ok && pLength != null ==> pLength[..] == old(pLength[..])
    ensures res != Ok && pValue != null ==> pValue[..] == old(pValue[..])
    ensures res == Ok ==> attrId <= BLOCKS && pLength != null && pValue != null
    ensures res == Ok ==>
      var length := NvmMap.GpNvmMap[attrId].length;
      && dev.Memory[..] == ScanAndFix(old(dev.Memory[..]), attrId)
      && pValue[..length] == BlockBytes(dev.Memory[..], attrId)
      && pValue[length..] == old(pValue[length..])
      && pLength[0] as nat == length
  {
    res := Ok;
    if attrId > BLOCKS {
      res := IncorrectId;
    }
    if pLength == null || pValue == null {
      res := ParamErr;
    }
    if res == Ok {
      res := ReadFixedBlock(dev, attrId, pLength, pValue);
    }
  }

  /** The body of `gpNvm_GetAttribute` once its checks passed: scan-and-fix of the page,
      the copy of the block, and the store of its length, which all succeed. */
  method ReadFixedBlock(dev: Flash.FlashDevice, attrId: nat, pLength: array<bv8>, pValue: array<bv8>) returns (res: Status)
    requires dev.Valid() && attrId <= BLOCKS
    requires pLength.Length == 1 && pLength != dev.Memory
    requires pValue != dev.Memory && pValue != pLength && pValue.Length >= NvmMap.GpNvmMap[attrId].length
    modifies dev.Memory, pLength, pValue
    ensures res == Ok
    ensures
      var length := NvmMap.GpNvmMap[attrId].length;
      && dev.Memory[..] == ScanAndFix(old(dev.Memory[..]), attrId)
      && pValue[..length] == BlockBytes(dev.Memory[..], attrId)
      && pValue[length..] == old(pValue[length..])
      && pLength[0] as nat == length
  {
    EccUpdate(dev, attrId, EccScanAndFix);
    res := ReadBlock(dev, attrId, pLength, pValue);
  }

  /** The copy of the whole block into `pValue` and the store of its length into
      `*pLength`, which succeed for every table entry and leave the flash as it is. */
  method ReadBlock(dev: Flash.FlashDevice, attrId: nat, pLength: array<bv8>, pValue: array<bv8>) returns (res: Status)
    requires dev.Valid() && attrId <= BLOCKS
    requires pLength.Length == 1 && pLength != dev.Memory
    requires pValue != dev.Memory && pValue != pLength && pValue.Length >= NvmMap.GpNvmMap[attrId].length
    modifies pLength, pValue
    ensures res == Ok
    ensures
      var length := NvmMap.GpNvmMap[attrId].length;
      && pValue[..length] == BlockBytes(dev.Memory[..], attrId)
      && pValue[length..] == old(pValue[length..])
      && pLength[0] as nat == length
  {
    var block := NvmMap.GpNvmMap[attrId];
    BlockBytesAt(dev.Memory[..], attrId);
    res := dev.FlashReadData(block.startAddr, pValue, block.length);
    LengthByteRoundTrip(attrId);
    pLength[0] := block.length as bv8;
  }

  /** `gpNvm_SetAttribute(attrId, length, pValue)`. The id and argument checks set a status
      that nothing reads: scan-and-fix, the write and the parity update always run, and
      the write's status, which is always `Ok` here, is returned. The table is indexed before
      any check can stop it, so `attrId` must index the table; `pValue` may only be NULL
      with `length == 0`, when `memcpy` copies nothing. */
  method SetAttribute(dev: Flash.FlashDevice, attrId: nat, length: nat, pValue: array?<bv8>) returns (res: Status)
    requires dev.Valid() && attrId <= BLOCKS && length < 256
    requires pValue != null ==> pValue.Length >= length && pValue != dev.Memory
    requires pValue == null ==> length == 0
    modifies dev.Memory
    ensures res == Ok
    ensures dev.Memory[..] == SetMemory(old(dev.Memory[..]), attrId, if pValue == null then [] else pValue[..length])
  {
    res := Ok;
    if attrId > BLOCKS {
      res := IncorrectId;
    }
    if pValue == null || length == 0 || length > NvmMap.GpNvmMap[attrId].length {
      res := ParamErr;
    }
    ghost var value := if pValue == null then [] else pValue[..length];
    EccUpdate(dev, attrId, EccScanAndFix);
    ghost var fixed := dev.Memory[..];
    var start := NvmMap.GpNvmMap[attrId].startAddr;
    BlockWriteFits(attrId, length);
    res := WriteFlash(dev, start, length, pValue);
    ghost var written := dev.Memory[..];
    assert written == Written(fixed, start, value);
    EccUpdate(dev, attrId, EccUpdateParity);
  }
}
