/** What the engine promises, stated over the memory functions that specify its methods:
    the set/get round trip, self-healing of single-bit errors, and the places where the
    code as written falls short of that (truncated decode result, first access to an
    erased page, the parity block's own id). */
module NvmProperties {
  import opened Bits
  import Flash
  import NvmMap
  import Hamming
  import opened Nvm

  /** Memory with data bit `k` of the page of block `id` inverted, as a stray bit flip
      in the device would leave it. */
  function FlipInPage(mem: seq<bv8>, id: nat, k: nat): (r: seq<bv8>)
    requires IsMemory(mem) && id <= BLOCKS && k < Hamming.DATA_BITS
    ensures IsMemory(r)
  {
    Written(mem, PageStart(id), Hamming.FlipBit(BlockPage(mem, id), k))
  }

  /** The parity slot of a user block lies beyond the block's page. */
  lemma SlotBeyondUserPage(id: nat)
    requires id < BLOCKS
    ensures PageStart(id) + PAGE_SIZE <= ParityAddr(id)
    ensures ParityAddr(id) + NvmMap.SINGLE_PAGE_ECC_SIZE <= Flash.FLASH_END
  {
    Placement(id);
  }

  /** The parity update of a user block's page writes the page's computed record to the
      slot, leaves the page as it was, and changes no byte outside the slot. */
  lemma UpdateParityEffect(mem: seq<bv8>, id: nat)
    requires IsMemory(mem) && id < BLOCKS
    ensures var r := UpdateParity(mem, id);
      && StoredParity(r, id) == Hamming.ComputedParity(BlockPage(mem, id))
      && BlockPage(r, id) == BlockPage(mem, id)
      && Consistent(r, id)
      && forall k :: 0 <= k < |mem| && !(ParityAddr(id) - FLASH_START <= k < ParityAddr(id) - FLASH_START + 2) ==> r[k] == mem[k]
  {
    var r := UpdateParity(mem, id);
    var ps, pa := PageStart(id) - FLASH_START, ParityAddr(id) - FLASH_START;
    SlotBeyondUserPage(id);
    assert BlockPage(r, id) == BlockPage(mem, id) by {
      forall j | ps <= j < ps + PAGE_SIZE
        ensures r[j] == mem[j]
      {
      }
    }
  }

  /** A page whose slot holds its computed record decodes clean: scan-and-fix changes
      nothing. */
  lemma ConsistentScanIsIdentity(mem: seq<bv8>, id: nat)
    requires IsMemory(mem) && id <= BLOCKS && Consistent(mem, id)
    ensures ScanAndFix(mem, id) == mem
  {
    var page := BlockPage(mem, id);
    Hamming.ComputedParityBits(page);
    Hamming.NoErrorDecode(page, StoredParity(mem, id));
  }

  /** `SetAttribute(id, |v|, v)` on a user block: the first `|v|` bytes of the block hold
      `v`, every byte outside them and the parity slot is as scan-and-fix left it, and the
      page's parity record matches the page. */
  lemma SetMemoryEffect(mem: seq<bv8>, id: nat, v: seq<bv8>)
    requires IsMemory(mem) && id < BLOCKS && |v| <= NvmMap.GpNvmMap[id].length
    ensures var r, s := SetMemory(mem, id, v), NvmMap.GpNvmMap[id].startAddr - FLASH_START;
      && r[s .. s + |v|] == v
      && Consistent(r, id)
      && forall k :: 0 <= k < |mem| && !(s <= k < s + |v|) && !(ParityAddr(id) - FLASH_START <= k < ParityAddr(id) - FLASH_START + 2)
           ==> r[k] == ScanAndFix(mem, id)[k]
  {
    BlockLength(id);
    var fixed := ScanAndFix(mem, id);
    assert SetMemory(mem, id, v) == WriteThenUpdate(fixed, id, v);
    SetWritesBlock(fixed, id, v);
    SetKeepsOthers(fixed, id, v);
    SetIsConsistent(fixed, id, v);
  }

  /** The write and the parity update as two splices: the value at the block start, then the
      new record at the slot. */
  lemma SetAsSplices(fixed: seq<bv8>, id: nat, v: seq<bv8>)
    requires IsMemory(fixed) && id < BLOCKS && |v| <= NvmMap.GpNvmMap[id].length
    ensures var s := NvmMap.GpNvmMap[id].startAddr - FLASH_START;
      s + |v| <= |fixed| && ParityAddr(id) - FLASH_START + 2 <= |fixed|
      && WriteThenUpdate(fixed, id, v) == Splice(Splice(fixed, s, v), ParityAddr(id) - FLASH_START,
           Hamming.ComputedParity(BlockPage(Written(fixed, NvmMap.GpNvmMap[id].startAddr, v), id)))
  {
    BlockInFlash(id);
    SlotBeyondUserPage(id);
  }

  /** After the write and the parity update, the first `|v|` bytes of the block hold `v`. */
  lemma SetWritesBlock(fixed: seq<bv8>, id: nat, v: seq<bv8>)
    requires IsMemory(fixed) && id < BLOCKS && |v| <= NvmMap.GpNvmMap[id].length
    ensures var s := NvmMap.GpNvmMap[id].startAddr - FLASH_START;
      s + |v| <= |fixed| && WriteThenUpdate(fixed, id, v)[s .. s + |v|] == v
  {
    BlockLength(id);
    SetAsSplices(fixed, id, v);
    BlockSurvivesSlot(fixed, id, v, Hamming.ComputedParity(BlockPage(Written(fixed, NvmMap.GpNvmMap[id].startAddr, v), id)));
  }

  /** A record written to the parity slot after `v` went to the start of a user block
      leaves `v` in place: the slot lies beyond the block's page. */
  lemma BlockSurvivesSlot(mem: seq<bv8>, id: nat, v: seq<bv8>, record: seq<bv8>)
    requires IsMemory(mem) && id < BLOCKS && |v| <= NvmMap.GpNvmMap[id].length && |record| == NvmMap.SINGLE_PAGE_ECC_SIZE
    ensures var s := NvmMap.GpNvmMap[id].startAddr - FLASH_START;
      && s + |v| <= ParityAddr(id) - FLASH_START && ParityAddr(id) - FLASH_START + |record| <= |mem|
      && Splice(Splice(mem, s, v), ParityAddr(id) - FLASH_START, record)[s .. s + |v|] == v
  {
    Placement(id);
    SlotBeyondUserPage(id);
    SpliceDisjoint(mem, NvmMap.GpNvmMap[id].startAddr - FLASH_START, v, ParityAddr(id) - FLASH_START, record);
  }

  /** The write and the parity update change no byte outside the written range and the
      parity slot. */
  lemma SetKeepsOthers(fixed: seq<bv8>, id: nat, v: seq<bv8>)
    requires IsMemory(fixed) && id < BLOCKS && |v| <= NvmMap.GpNvmMap[id].length
    ensures var r, s := WriteThenUpdate(fixed, id, v), NvmMap.GpNvmMap[id].startAddr - FLASH_START;
      forall k :: 0 <= k < |fixed| && !(s <= k < s + |v|) && !(ParityAddr(id) - FLASH_START <= k < ParityAddr(id) - FLASH_START + 2)
        ==> r[k] == fixed[k]
  {
    SetAsSplices(fixed, id, v);
  }

  /** Scan-and-fix of a user block is idempotent: a page it rewrote is consistent, and a
      page it left alone decodes the same way again. So two `GetAttribute(id)` calls with no
      write in between leave the same memory and return the same bytes, even on a fresh
      erased page or after a repair the `UInt8` result lost. */
  lemma ScanIdempotent(mem: seq<bv8>, id: nat)
    requires IsMemory(mem) && id < BLOCKS
    ensures ScanAndFix(ScanAndFix(mem, id), id) == ScanAndFix(mem, id)
  {
    var page, record := BlockPage(mem, id), StoredParity(mem, id);
    if Hamming.DecodeResult(page, record) != 0 {
      var fixed := Hamming.Corrected(page, record);
      SlotThenPageReadBack(mem, id, Hamming.ComputedParity(fixed), fixed);
      ConsistentScanIsIdentity(ScanAndFix(mem, id), id);
    }
  }

  /** Writing a record to the slot and then a page over the page: both read back, since the
      slot lies beyond the page. */
  lemma SlotThenPageReadBack(mem: seq<bv8>, id: nat, record: seq<bv8>, fixed: seq<bv8>)
    requires IsMemory(mem) && id < BLOCKS && |record| == NvmMap.SINGLE_PAGE_ECC_SIZE && |fixed| == PAGE_SIZE
    ensures var r := Written(Written(mem, ParityAddr(id), record), PageStart(id), fixed);
      StoredParity(r, id) == record && BlockPage(r, id) == fixed
  {
    SlotBeyondUserPage(id);
    var ps, pa := PageStart(id) - FLASH_START, ParityAddr(id) - FLASH_START;
    SpliceDisjoint(mem, pa, record, ps, fixed);
    SpliceReadBack(Splice(mem, pa, record), ps, fixed);
  }

  /** Round trip: after `SetAttribute(id, L, v)` with `L` the block length, the page is
      consistent, so `GetAttribute(id)` changes nothing and returns `v`. */
  lemma SetThenGet(mem: seq<bv8>, id: nat, v: seq<bv8>)
    requires IsMemory(mem) && id < BLOCKS && |v| == NvmMap.GpNvmMap[id].length
    ensures ScanAndFix(SetMemory(mem, id, v), id) == SetMemory(mem, id, v)
    ensures BlockBytes(SetMemory(mem, id, v), id) == v
  {
    BlockLength(id);
    var r := SetMemory(mem, id, v);
    var fixed := ScanAndFix(mem, id);
    assert r == WriteThenUpdate(fixed, id, v);
    assert BlockBytes(r, id) == v by {
      SetWritesBlock(fixed, id, v);
      BlockBytesAt(r, id);
    }
    assert ScanAndFix(r, id) == r by {
      SetIsConsistent(fixed, id, v);
      ConsistentScanIsIdentity(r, id);
    }
  }

  /** After the write and the parity update, the page's parity record matches the page. */
  lemma SetIsConsistent(fixed: seq<bv8>, id: nat, v: seq<bv8>)
    requires IsMemory(fixed) && id < BLOCKS && |v| <= NvmMap.GpNvmMap[id].length
    ensures Consistent(WriteThenUpdate(fixed, id, v), id)
  {
    BlockLength(id);
    BlockBytesAt(fixed, id);
    UpdateParityEffect(Written(fixed, NvmMap.GpNvmMap[id].startAddr, v), id);
  }

  /** The corrupted memory keeps the slot and differs from `mem` on the page only at bit `k`. */
  lemma FlipInPageViews(mem: seq<bv8>, id: nat, k: nat)
    requires IsMemory(mem) && id < BLOCKS && k < Hamming.DATA_BITS
    ensures BlockPage(FlipInPage(mem, id, k), id) == Hamming.FlipBit(BlockPage(mem, id), k)
    ensures StoredParity(FlipInPage(mem, id, k), id) == StoredParity(mem, id)
    ensures FlipInPage(mem, id, k) != mem
  {
    SlotBeyondUserPage(id);
    var page := BlockPage(mem, id);
    var m := FlipInPage(mem, id, k);
    assert Hamming.BitAt(Hamming.FlipBit(page, k), k) != Hamming.BitAt(page, k);
    assert BlockPage(m, id) != page;
  }

  /** Self-healing: on a consistent page, one flipped data bit `k` whose position `k + 1`
      the 14 parity bits can name, and which the `UInt8` result does not truncate to 0, is
      repaired and persisted: scan-and-fix restores the memory exactly. */
  lemma SelfHealing(mem: seq<bv8>, id: nat, k: nat)
    requires IsMemory(mem) && id < BLOCKS && Consistent(mem, id)
    requires k + 1 < Hamming.DATA_BITS && (k + 1) % 256 != 0
    ensures ScanAndFix(FlipInPage(mem, id, k), id) == mem
  {
    var page, record := BlockPage(mem, id), StoredParity(mem, id);
    var m := FlipInPage(mem, id, k);
    assert BlockPage(m, id) == Hamming.FlipBit(page, k) && StoredParity(m, id) == record by {
      FlipInPageViews(mem, id, k);
    }
    assert Hamming.DecodeResult(Hamming.FlipBit(page, k), record) != 0
        && Hamming.Corrected(Hamming.FlipBit(page, k), record) == page by {
      Hamming.ComputedParityBits(page);
      Hamming.ParityBitsSpanPage();
      Hamming.SingleErrorCorrection(page, record, k);
    }
    assert ScanAndFix(m, id) == Written(Written(m, ParityAddr(id), record), PageStart(id), page);
    RewriteStoredParity(m, id);
    WrittenBack(mem, id, k);
  }

  /** Writing a page's stored parity record back to its slot changes nothing. */
  lemma RewriteStoredParity(mem: seq<bv8>, id: nat)
    requires IsMemory(mem) && id <= BLOCKS
    ensures Written(mem, ParityAddr(id), StoredParity(mem, id)) == mem
  {
    RewriteSameBytes(mem, ParityAddr(id), StoredParity(mem, id));
  }

  /** Writing bytes that are already there changes nothing. */
  lemma RewriteSameBytes(mem: seq<bv8>, addr: nat, v: seq<bv8>)
    requires IsMemory(mem) && FLASH_START <= addr && addr - FLASH_START + |v| <= |mem|
    requires mem[addr - FLASH_START .. addr - FLASH_START + |v|] == v
    ensures Written(mem, addr, v) == mem
  {
    var at := addr - FLASH_START;
    forall j | 0 <= j < |mem|
      ensures Written(mem, addr, v)[j] == mem[j]
    {
      if at <= j < at + |v| {
        assert v[j - at] == mem[at .. at + |v|][j - at];
      }
    }
  }

  /** Writing the original page back over a corrupted one restores the memory. */
  lemma WrittenBack(mem: seq<bv8>, id: nat, k: nat)
    requires IsMemory(mem) && id < BLOCKS && k < Hamming.DATA_BITS
    ensures Written(FlipInPage(mem, id, k), PageStart(id), BlockPage(mem, id)) == mem
  {
    SpliceRestore(mem, PageStart(id) - FLASH_START, Hamming.FlipBit(BlockPage(mem, id), k));
  }

  /** The truncated result of `decodeAndCorrect` loses repairs: when `k + 1` is a multiple
      of 256 the bit is corrected in the scratch buffer only, `eccUpdate` sees 0 and writes
      nothing back, so the flipped bit stays in flash. */
  lemma UnreportedRepairLost(mem: seq<bv8>, id: nat, k: nat)
    requires IsMemory(mem) && id < BLOCKS && Consistent(mem, id)
    requires k + 1 < Hamming.DATA_BITS && (k + 1) % 256 == 0
    ensures ScanAndFix(FlipInPage(mem, id, k), id) == FlipInPage(mem, id, k) != mem
  {
    var page, record := BlockPage(mem, id), StoredParity(mem, id);
    FlipInPageViews(mem, id, k);
    Hamming.ComputedParityBits(page);
    Hamming.ParityBitsSpanPage();
    Hamming.SingleErrorCorrection(page, record, k);
  }

  /** `k + 1` odd is never a multiple of 256. */
  lemma OddNotMultiple(n: nat)
    requires n % 2 == 1
    ensures n % 256 != 0
  {
    if n % 256 == 0 {
      DivMulAdd(n / 256, 256, 0);
      DivMulAdd(128 * (n / 256), 2, 0);
    }
  }

  /** The scenario of the repository's tests: `SetAttribute(1, 0xFF, data)` from any
      memory puts `data` in block 1 and `GetAttribute(1)` returns it; after bit 0 of byte
      `o` of the block is flipped in flash, the block reads back with that bit inverted,
      and `GetAttribute(1)` repairs it, restoring the memory and again returning `data`. */
  lemma TestScenario(mem: seq<bv8>, data: seq<bv8>, o: nat)
    requires IsMemory(mem) && |data| == 0xFF && o < 0xFF
    ensures BlockBytes(SetMemory(mem, 1, data), 1) == data
    ensures ScanAndFix(SetMemory(mem, 1, data), 1) == SetMemory(mem, 1, data)
    ensures BlockBytes(FlipInPage(SetMemory(mem, 1, data), 1, 0x800 + 8 * o), 1)[o] == data[o] ^ 0x01
    ensures ScanAndFix(FlipInPage(SetMemory(mem, 1, data), 1, 0x800 + 8 * o), 1) == SetMemory(mem, 1, data)
  {
    SetThenGet(mem, 1, data);
    LowBitFlipRead(mem, data, o);
    ToggleBitOf0(data[o]);
    LowBitFlipHealed(mem, data, o);
  }

  /** After the set and a flip of bit 0 of byte `o` of block 1, the block reads back that
      byte of `data` with bit 0 toggled. */
  lemma LowBitFlipRead(mem: seq<bv8>, data: seq<bv8>, o: nat)
    requires IsMemory(mem) && |data| == 0xFF && o < 0xFF
    ensures BlockBytes(FlipInPage(SetMemory(mem, 1, data), 1, 0x800 + 8 * o), 1)[o] == ToggleBit(data[o], 0)
  {
    SetThenGet(mem, 1, data);
    BlockOneBitFlip(SetMemory(mem, 1, data), o, 0, 0x800 + 8 * o);
  }

  /** After the set, scan-and-fix undoes a flip of bit 0 of byte `o` of block 1. */
  lemma LowBitFlipHealed(mem: seq<bv8>, data: seq<bv8>, o: nat)
    requires IsMemory(mem) && |data| == 0xFF && o < 0xFF
    ensures ScanAndFix(FlipInPage(SetMemory(mem, 1, data), 1, 0x800 + 8 * o), 1) == SetMemory(mem, 1, data)
  {
    SetMemoryEffect(mem, 1, data);
    LowBitPosition(o);
    SelfHealing(SetMemory(mem, 1, data), 1, 0x800 + 8 * o);
  }

  /** Bit 0 of page byte `0x100 + o` is data bit `0x800 + 8 * o`, whose 1-based position is
      odd and so never a multiple of 256. */
  lemma LowBitPosition(o: nat)
    requires o < 0xFF
    ensures 0x800 + 8 * o + 1 < Hamming.DATA_BITS && (0x800 + 8 * o + 1) % 256 != 0
  {
    DivMulAdd(0x400 + 4 * o, 2, 1);
    OddNotMultiple(0x800 + 8 * o + 1);
  }

  /** Flipping data bit `k == 0x800 + 8 * o + bit` of page 0 toggles bit `bit` of byte `o` of
      block 1, as read through the block. */
  lemma BlockOneBitFlip(m: seq<bv8>, o: nat, bit: nat, k: nat)
    requires IsMemory(m) && o < 0xFF && bit < 8 && k == 0x800 + 8 * o + bit
    ensures k < Hamming.DATA_BITS
    ensures BlockBytes(FlipInPage(m, 1, k), 1)[o] == ToggleBit(BlockBytes(m, 1)[o], bit)
  {
    assert k / 8 == 0x100 + o && k % 8 == bit by {
      assert k == (0x100 + o) * 8 + bit;
      DivMulAdd(0x100 + o, 8, bit);
    }
    var f := FlipInPage(m, 1, k);
    assert PageStart(1) == FLASH_START by {
      Placement(1);
    }
    FlipInPageByte(m, 1, k);
    BlockBytesAt(f, 1);
    BlockBytesAt(m, 1);
    assert NvmMap.GpNvmMap[1].startAddr == FLASH_START + 0x100;
  }

  /** Flipping data bit `k` of a block's page toggles bit `k % 8` of page byte `k / 8`. */
  lemma FlipInPageByte(m: seq<bv8>, id: nat, k: nat)
    requires IsMemory(m) && id <= BLOCKS && k < Hamming.DATA_BITS
    ensures var i := PageStart(id) - FLASH_START + k / 8;
      i < |m| && FlipInPage(m, id, k)[i] == ToggleBit(m[i], k % 8)
  {
    var page := BlockPage(m, id);
    Hamming.FlipBitByte(page, k);
  }

  /** Toggling bit 0 is `^ 0x01`. */
  lemma ToggleBitOf0(x: bv8)
    ensures ToggleBit(x, 0) == x ^ 0x01
  {
  }

  /** The same test with bit 7 instead of bit 0 fails for every 32nd byte of block 1 (bytes
      0x1F, 0x3F, ..., 0xDF): bit 7 of byte `o` is data bit `0x807 + 8 * o` of page 0, whose
      position `0x808 + 8 * o` is then a multiple of 256, so `GetAttribute(1)` leaves the
      flip in flash and returns the corrupted byte. */
  lemma TestScenarioBit7Fails(mem: seq<bv8>, data: seq<bv8>, o: nat)
    requires IsMemory(mem) && |data| == 0xFF && o < 0xFF && (o + 1) % 32 == 0
    ensures var m := FlipInPage(SetMemory(mem, 1, data), 1, 0x800 + 8 * o + 7);
      && ScanAndFix(m, 1) == m
      && BlockBytes(m, 1)[o] == data[o] ^ 0x80 != data[o]
  {
    TopBitFlipStays(mem, data, o);
    TopBitFlipRead(mem, data, o);
    ToggleTopBit(data[o]);
  }

  /** After the set, scan-and-fix does not undo a flip of bit 7 of byte `o` of block 1 when
      `(o + 1) % 32 == 0`. */
  lemma TopBitFlipStays(mem: seq<bv8>, data: seq<bv8>, o: nat)
    requires IsMemory(mem) && |data| == 0xFF && o < 0xFF && (o + 1) % 32 == 0
    ensures var m := FlipInPage(SetMemory(mem, 1, data), 1, 0x800 + 8 * o + 7);
      ScanAndFix(m, 1) == m
  {
    SetMemoryEffect(mem, 1, data);
    TopBitPosition(o);
    UnreportedRepairLost(SetMemory(mem, 1, data), 1, 0x800 + 8 * o + 7);
  }

  /** After the set and a flip of bit 7 of byte `o` of block 1, the block reads back that
      byte of `data` with bit 7 toggled. */
  lemma TopBitFlipRead(mem: seq<bv8>, data: seq<bv8>, o: nat)
    requires IsMemory(mem) && |data| == 0xFF && o < 0xFF
    ensures BlockBytes(FlipInPage(SetMemory(mem, 1, data), 1, 0x800 + 8 * o + 7), 1)[o] == ToggleBit(data[o], 7)
  {
    SetThenGet(mem, 1, data);
    BlockOneBitFlip(SetMemory(mem, 1, data), o, 7, 0x800 + 8 * o + 7);
  }

  /** Bit 7 of page byte `0x100 + o` is data bit `0x807 + 8 * o`; when `o + 1` is a multiple
      of 32 its 1-based position is a multiple of 256. */
  lemma TopBitPosition(o: nat)
    requires o < 0xFF && (o + 1) % 32 == 0
    ensures 0x800 + 8 * o + 7 + 1 < Hamming.DATA_BITS && (0x800 + 8 * o + 7 + 1) % 256 == 0
  {
    var t := (o + 1) / 32;
    assert 0x800 + 8 * o + 7 + 1 == (8 + t) * 256;
    DivMulAdd(8 + t, 256, 0);
  }

  /** Toggling bit 7 is `^ 0x80`, and it changes the byte. */
  lemma ToggleTopBit(x: bv8)
    ensures ToggleBit(x, 7) == x ^ 0x80 != x
  {
  }

  /** First access to a freshly erased page corrupts it: the erased page against the erased
      record 0xFF 0xFF gives syndrome 16383, so bit 16382 (bit 6 of the page's last byte) is
      cleared and persisted with a record of 0xFF 0x3F. The byte lies in no user block, so
      the block still reads as erased. */
  lemma FreshPageFirstScan(id: nat)
    requires id < BLOCKS
    ensures var mem := Fill(Flash.FLASH_SIZE, 0xFF as bv8);
      var ps, pa := PageStart(id) - FLASH_START, ParityAddr(id) - FLASH_START;
      && ScanAndFix(mem, id) == mem[ps + PAGE_SIZE - 1 := 0xBF][pa + 1 := 0x3F]
      && BlockBytes(ScanAndFix(mem, id), id) == Fill(NvmMap.GpNvmMap[id].length, 0xFF)
  {
    var fixed := Fill(PAGE_SIZE, 0xFF as bv8)[PAGE_SIZE - 1 := 0xBF];
    FreshScanWrites(id, fixed);
    ErasedRewrite(id, fixed);
    FreshBlockUntouched(id);
  }

  /** The first scan of an erased page writes the record 0xFF 0x3F to the slot and then the
      page with bit 6 of its last byte cleared. */
  lemma FreshScanWrites(id: nat, fixed: seq<bv8>)
    requires id < BLOCKS
    requires fixed == Fill(PAGE_SIZE, 0xFF as bv8)[PAGE_SIZE - 1 := 0xBF]
    ensures var mem := Fill(Flash.FLASH_SIZE, 0xFF as bv8);
      ScanAndFix(mem, id) == Written(Written(mem, ParityAddr(id), [0xFF, 0x3F]), PageStart(id), fixed)
  {
    var mem := Fill(Flash.FLASH_SIZE, 0xFF as bv8);
    var page := BlockPage(mem, id);
    assert page == Fill(PAGE_SIZE, 0xFF as bv8) && AllErased(page) by {
      Placement(id);
    }
    assert StoredParity(mem, id) == [0xFF, 0xFF] by {
      SlotBeyondUserPage(id);
      Placement(id);
    }
    Hamming.ErasedPageDecode(page);
    Hamming.FlippedErasedParity(page);
  }

  /** Neither the last byte of the page nor the second byte of its parity slot lies in the
      user block `id`, so the block still holds erased bytes. */
  lemma FreshBlockUntouched(id: nat)
    requires id < BLOCKS
    ensures var mem := Fill(Flash.FLASH_SIZE, 0xFF as bv8);
      var ps, pa := PageStart(id) - FLASH_START, ParityAddr(id) - FLASH_START;
      && ps + PAGE_SIZE - 1 < |mem| && pa + 1 < |mem|
      && BlockBytes(mem[ps + PAGE_SIZE - 1 := 0xBF][pa + 1 := 0x3F], id) == Fill(NvmMap.GpNvmMap[id].length, 0xFF)
  {
    SlotBeyondUserPage(id);
    Placement(id);
  }

  /** The two writes of the first scan of an erased page, as two byte updates. */
  lemma ErasedRewrite(id: nat, fixed: seq<bv8>)
    requires id < BLOCKS
    requires fixed == Fill(PAGE_SIZE, 0xFF as bv8)[PAGE_SIZE - 1 := 0xBF]
    ensures var mem := Fill(Flash.FLASH_SIZE, 0xFF as bv8);
      var ps, pa := PageStart(id) - FLASH_START, ParityAddr(id) - FLASH_START;
      Written(Written(mem, ParityAddr(id), [0xFF, 0x3F]), PageStart(id), fixed) == mem[ps + PAGE_SIZE - 1 := 0xBF][pa + 1 := 0x3F]
  {
    var mem := Fill(Flash.FLASH_SIZE, 0xFF as bv8);
    var ps, pa := PageStart(id) - FLASH_START, ParityAddr(id) - FLASH_START;
    SlotBeyondUserPage(id);
    var r := Written(Written(mem, ParityAddr(id), [0xFF, 0x3F]), PageStart(id), fixed);
    var expected := mem[ps + PAGE_SIZE - 1 := 0xBF][pa + 1 := 0x3F];
    forall j | 0 <= j < |mem|
      ensures r[j] == expected[j]
    {
    }
  }

  /** The id check admits the parity block's own id, and setting it overwrites the parity
      records of the other pages with user data: with 0xFF bytes written, the slots of
      pages 0 and 1 end up holding `v[0..2]` and `v[2..4]`. */
  lemma EccIdSetOverwritesSlots(mem: seq<bv8>, v: seq<bv8>)
    requires IsMemory(mem) && |v| == 0xFF
    ensures GetStatus(ECC_BLOCK_ID, false, false) == Statuses.Ok
    ensures StoredParity(SetMemory(mem, ECC_BLOCK_ID, v), 0) == v[..2]
    ensures StoredParity(SetMemory(mem, ECC_BLOCK_ID, v), 2) == v[2..4]
  {
    var fixed := ScanAndFix(mem, ECC_BLOCK_ID);
    var w := Written(fixed, NvmMap.GpNvmMap[ECC_BLOCK_ID].startAddr, v);
    var record := Hamming.ComputedParity(BlockPage(w, ECC_BLOCK_ID));
    var r := SetMemory(mem, ECC_BLOCK_ID, v);
    assert r == Splice(Splice(fixed, 0x1F00, v), 0x1F06, record) by {
      SlotAddresses();
      Placement(ECC_BLOCK_ID);
    }
    EccBlockOverSlots(fixed, v, record);
  }

  /** Writing 0xFF bytes over the parity block and then page 3's record into its own slot
      leaves the first four bytes written in the slots of pages 0 and 1. */
  lemma EccBlockOverSlots(mem: seq<bv8>, v: seq<bv8>, record: seq<bv8>)
    requires IsMemory(mem) && |v| == 0xFF && |record| == NvmMap.SINGLE_PAGE_ECC_SIZE
    ensures var r := Splice(Splice(mem, 0x1F00, v), 0x1F06, record);
      StoredParity(r, 0) == v[..2] && StoredParity(r, 2) == v[2..4]
  {
    var r := Splice(Splice(mem, 0x1F00, v), 0x1F06, record);
    SlotAddresses();
    SplicePrefixKept(mem, 0x1F00, v, 0x1F06, record);
    var kept := r[0x1F00 .. 0x1F06];
    assert StoredParity(r, 0) == kept[..2] && StoredParity(r, 2) == kept[2..4];
  }

  /** The engine's header declares 0x1FFF bytes of flash, the device 0x2000. The parity
      block ends at the engine's `FLASH_END`, but the page it sits on, which the engine
      erases and rewrites whole, reaches one byte further, to the device's end. */
  lemma GeometryMismatch()
    ensures NvmMap.FLASH_END + 1 == Flash.FLASH_END
    ensures PageStart(ECC_BLOCK_ID) + PAGE_SIZE == Flash.FLASH_END
    ensures NvmMap.GpNvmMap[ECC_BLOCK_ID].startAddr + NvmMap.GpNvmMap[ECC_BLOCK_ID].length == NvmMap.FLASH_END
  {
    Placement(ECC_BLOCK_ID);
  }
}
