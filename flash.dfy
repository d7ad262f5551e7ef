/** The simulated flash device: one global byte array `Memory` behind the window
    `[FLASH_START, FLASH_END)`, with page erase, guarded write and verbatim read.

    Addresses are the C pointer values as natural numbers, with 0 standing for NULL, so that
    the device's own range checks keep their meaning; `Memory` is indexed by
    `addr - FLASH_START`. Saving the array to a file after each change is left out. */
module Flash {
  import opened Bits
  import opened Statuses

  const FLASH_SIZE := 0x2000
  const PAGE_SIZE := 0x800
  const FLASH_START := 0x80000
  const FLASH_END := FLASH_START + FLASH_SIZE

  /** The NULL pointer. */
  const NULL := 0

  /** Start of the page holding `addr`: `(addr / PAGE_SIZE) * PAGE_SIZE`. */
  function PageStartOf(addr: nat): (r: nat)
    ensures r % PAGE_SIZE == 0 && r <= addr < r + PAGE_SIZE
  {
    DivMulAdd(addr / PAGE_SIZE, PAGE_SIZE, 0);
    addr / PAGE_SIZE * PAGE_SIZE
  }

  /** A page that starts inside the window ends inside it too: the window is page aligned. */
  lemma PageInWindow(addr: nat)
    requires FLASH_START <= addr < FLASH_END
    ensures FLASH_START <= PageStartOf(addr) && PageStartOf(addr) + PAGE_SIZE <= FLASH_END
  {
    var q := addr / PAGE_SIZE;
    assert addr == q * PAGE_SIZE + addr % PAGE_SIZE;
    assert 0x100 <= q < 0x104;
  }

  /** `getMemoryAddr`: the index into `Memory` of a flash address. Exactly the addresses of
      the window land inside the array. */
  function MemoryIndex(addr: nat): (i: nat)
    requires FLASH_START <= addr
    ensures FLASH_START + i == addr
    ensures i < FLASH_SIZE <==> addr < FLASH_END
  {
    addr - FLASH_START
  }

  /** What `isPageErased(addr)` decides: only the first byte of the page holding `addr` is
      compared with 0xFF, on every round of its loop. */
  predicate FirstByteErased(mem: seq<bv8>, addr: nat)
    requires |mem| == FLASH_SIZE && FLASH_START <= addr < FLASH_END
  {
    PageInWindow(addr);
    mem[MemoryIndex(PageStartOf(addr))] == 0xFF
  }

  /** The two probes `flashWrite` makes: the page of the first byte and the page of
      byte `addr + len - 1`. */
  predicate ErasedProbes(mem: seq<bv8>, addr: nat, len: nat)
    requires |mem| == FLASH_SIZE && FLASH_START <= addr < FLASH_END
    requires FLASH_START <= addr + len - 1 < FLASH_END
  {
    FirstByteErased(mem, addr) && FirstByteErased(mem, addr + len - 1)
  }

  /** The status `flashWrite` settles on. Each later check overwrites the earlier one, so a
      range error beats a parameter error, which beats a page that is not erased. */
  function WriteStatus(addr: nat, dataNull: bool, len: nat, erased: bool): (s: Status)
    ensures s == OutOfBounds <==> addr > FLASH_END || addr < FLASH_START
    ensures s == ParamErr <==> FLASH_START <= addr <= FLASH_END && (addr == NULL || dataNull || len == 0)
    ensures s == PageNotErased <==> FLASH_START <= addr <= FLASH_END && !dataNull && len > 0 && !erased
    ensures s == Ok <==> FLASH_START <= addr <= FLASH_END && !dataNull && len > 0 && erased
  {
    var s0 := if !erased then PageNotErased else Ok;
    var s1 := if addr == NULL || dataNull || len == 0 then ParamErr else s0;
    if addr > FLASH_END || addr < FLASH_START then OutOfBounds else s1
  }

  /** The status `flashErasePage` settles on: NULL gives `ParamErr`, but NULL is also below
      the window, so the later range check turns it into `OutOfBounds`. */
  function EraseStatus(addr: nat): (s: Status)
    ensures s == Ok <==> FLASH_START <= addr <= FLASH_END
    ensures s != Ok ==> s == OutOfBounds
  {
    var s0 := if addr == NULL then ParamErr else Ok;
    if addr > FLASH_END || addr < FLASH_START then OutOfBounds else s0
  }

  /** The status `flashReadData` settles on. Unlike `flashWrite`, its range check covers the
      whole of `[addr, addr + length)`. */
  function ReadStatus(addr: nat, dataNull: bool, length: nat): (s: Status)
    ensures s == Ok <==> FLASH_START <= addr && addr + length <= FLASH_END && !dataNull && length > 0
    ensures s == OutOfBounds <==> addr < FLASH_START || addr + length > FLASH_END
    ensures s == Ok || s == OutOfBounds || s == ParamErr
  {
    var s0 := if addr == NULL || dataNull || length == 0 then ParamErr else Ok;
    if addr + length > FLASH_END || addr < FLASH_START then OutOfBounds else s0
  }

  /** The erased check is weak: a page whose first byte is 0xFF passes it whatever the
      other 2047 bytes hold. */
  lemma ErasedCheckIsWeak(mem: seq<bv8>, addr: nat)
    requires |mem| == FLASH_SIZE && FLASH_START <= addr < FLASH_END
    requires mem[PageStartOf(addr) - FLASH_START] == 0xFF
    ensures FirstByteErased(mem, addr)
    ensures PageStartOf(addr) + 1 < FLASH_END
    ensures var m := mem[PageStartOf(addr) - FLASH_START + 1 := 0];
      FirstByteErased(m, addr) && !AllErased(m)
  {
    PageInWindow(addr);
    var at := PageStartOf(addr) - FLASH_START + 1;
    var m := mem[at := 0];
    assert m[at] != 0xFF;
  }

  /** The flash device: the array `Memory` the engine reads and changes. */
  class FlashDevice {
    var Memory: array<bv8>

    ghost predicate Valid()
      reads this
    {
      Memory.Length == FLASH_SIZE
    }

    /** `uint8_t Memory[FLASH_SIZE]` has static storage, so it starts zero-filled. */
    constructor ()
      ensures Valid() && fresh(Memory)
      ensures Memory[..] == Fill(FLASH_SIZE, 0)
    {
      Memory := new bv8[FLASH_SIZE](_ => 0);
    }

    /** `MemoryInit`: every byte of `Memory` erased to 0xFF. */
    method MemoryInit()
      requires Valid()
      modifies Memory
      ensures Memory[..] == Fill(FLASH_SIZE, 0xFF)
    {
      forall i | 0 <= i < Memory.Length {
        Memory[i] := 0xFF;
      }
    }

    /** `isPageErased(addr)`: loops over the page size, but every round re-reads the page's
        first byte, so the answer is whether that single byte is 0xFF. */
    method IsPageErased(addr: nat) returns (erased: bool)
      requires Valid() && FLASH_START <= addr < FLASH_END
      ensures erased == FirstByteErased(Memory[..], addr)
    {
      erased := true;
      var pageStart := PageStartOf(addr);
      PageInWindow(addr);
      var i := 0;
      while i < PAGE_SIZE
        invariant 0 <= i <= PAGE_SIZE
        invariant erased
        invariant i > 0 ==> Memory[pageStart - FLASH_START] == 0xFF
      {
        if Memory[pageStart - FLASH_START] != 0xFF {
          erased := false;
          break;
        }
        i := i + 1;
      }
    }

    /** `flashWrite(addr, data, len)`: copies `len` bytes of `data` to `addr` when every
        check passes, and leaves `Memory` alone otherwise.

        The erased check reads `Memory` before the range check runs and the range check
        ignores `len`, so the caller must keep both probed pages and the whole target
        range inside the window. */
    method FlashWrite(addr: nat, data: array?<bv8>, len: nat) returns (status: Status)
      requires Valid() && len < 0x1_0000
      requires data != null ==> data.Length >= len && data != Memory
      requires FLASH_START <= addr < FLASH_END && FLASH_START <= addr + len - 1 < FLASH_END
      modifies Memory
      ensures status == WriteStatus(addr, data == null, len, ErasedProbes(old(Memory[..]), addr, len))
      ensures status == Ok ==> data != null && Memory[..] == Splice(old(Memory[..]), addr - FLASH_START, data[..len])
      ensures status != Ok ==> Memory[..] == old(Memory[..])
    {
      status := Ok;
      var e1 := IsPageErased(addr);
      var e2 := false;
      if e1 {
        e2 := IsPageErased(addr + len - 1);
      }
      if !e1 || !e2 {
        status := PageNotErased;
      }
      if addr == NULL || data == null || len == 0 {
        status := ParamErr;
      }
      if addr > FLASH_END || addr < FLASH_START {
        status := OutOfBounds;
      }
      if status == Ok {
        var at := addr - FLASH_START;
        forall i | 0 <= i < len {
          Memory[at + i] := data[i];
        }
      }
    }

    /** `flashErasePage(addr)`: sets the whole page holding `addr` to 0xFF.

        The range check admits `addr == FLASH_END`, whose page lies past the end of
        `Memory`; the caller must not pass it. */
    method FlashErasePage(addr: nat) returns (status: Status)
      requires Valid() && addr != FLASH_END
      modifies Memory
      ensures status == EraseStatus(addr)
      ensures status == Ok ==> PageStartOf(addr) - FLASH_START + PAGE_SIZE <= FLASH_SIZE
      ensures status == Ok ==> Memory[..] == Splice(old(Memory[..]), PageStartOf(addr) - FLASH_START, Fill(PAGE_SIZE, 0xFF))
      ensures status != Ok ==> Memory[..] == old(Memory[..])
    {
      status := Ok;
      if addr == NULL {
        status := ParamErr;
      }
      if addr > FLASH_END || addr < FLASH_START {
        status := OutOfBounds;
      }
      if status == Ok {
        PageInWindow(addr);
        var at := PageStartOf(addr) - FLASH_START;
        forall i | at <= i < at + PAGE_SIZE {
          Memory[i] := 0xFF;
        }
      }
    }

    /** `flashReadData(addr, data, length)`: copies `length` bytes from `addr` into `data`
        when every check passes. It never changes `Memory`. */
    method FlashReadData(addr: nat, data: array?<bv8>, length: nat) returns (status: Status)
      requires Valid() && length < 0x1_0000
      requires data != null ==> data.Length >= length && data != Memory
      modifies data
      ensures status == ReadStatus(addr, data == null, length)
      ensures Memory[..] == old(Memory[..])
      ensures status == Ok ==> data != null && data[..length] == Memory[addr - FLASH_START .. addr - FLASH_START + length]
      ensures data != null ==> data[length..] == old(data[length..])
      ensures data != null && status != Ok ==> data[..] == old(data[..])
    {
      status := Ok;
      if addr == NULL || data == null || length == 0 {
        status := ParamErr;
      }
      if addr + length > FLASH_END || addr < FLASH_START {
        status := OutOfBounds;
      }
      if status == Ok {
        var at := addr - FLASH_START;
        forall i | 0 <= i < length {
          data[i] := Memory[at + i];
        }
      }
    }
  }
}
