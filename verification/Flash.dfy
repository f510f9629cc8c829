/**
 Flash programming of drivers/B85/flash.c over the serial bus, against a model of the flash chip: bytes
 are shifted in while the chip is selected and a command takes effect when it is deselected. A page
 program can only clear bits and wraps inside its 256-byte page.
 */
module FlashMemory {
  import opened Modulo
  import opened PacketSlots

  const SIZE: nat := 0x100_0000
  const PAGE_SIZE: nat := 256
  const SECTOR_SIZE: nat := 4096

  type Memory = m: seq<Byte> | |m| == SIZE witness seq(SIZE, _ => 0)

  /** The bits that `a` and `b`, of `n` bits each, have in common. */
  function CommonBits(a: nat, b: nat, n: nat): (c: nat)
    ensures c <= a && c <= b
  {
    if n == 0 then 0 else 2 * CommonBits(a / 2, b / 2, n - 1) + if a % 2 == 1 && b % 2 == 1 then 1 else 0
  }

  lemma {:induction false} CommonWithOnes(a: nat, b: nat, n: nat)
    requires a + 1 == Power(2, n) > b
    ensures CommonBits(a, b, n) == b
  {
    if n == 0 {
    } else {
      CommonWithOnes(a / 2, b / 2, n - 1);
    }
  }

  /** Bit by bit. */
  lemma {:induction false} CommonBitsAt(a: nat, b: nat, n: nat, i: nat)
    requires i < n
    ensures Power(2, i) > 0
    ensures CommonBits(a, b, n) / Power(2, i) % 2 == 1 <==> a / Power(2, i) % 2 == 1 && b / Power(2, i) % 2 == 1
    decreases n
  {
    PowerPositive(2, i);
    var rest := CommonBits(a / 2, b / 2, n - 1);
    if i == 0 {
      assert Power(2, 0) == 1;
    } else {
      CommonBitsAt(a / 2, b / 2, n - 1, i - 1);
      HalfFirst(a, i);
      HalfFirst(b, i);
      HalfFirst(CommonBits(a, b, n), i);
      assert CommonBits(a, b, n) / 2 == rest;
    }
  }

  lemma {:induction false} PowerPositive(b: nat, i: nat)
    requires b > 0
    ensures Power(b, i) > 0
  {
    if i == 0 {
    } else {
      PowerPositive(b, i - 1);
    }
  }

  lemma HalfFirst(a: nat, i: nat)
    requires i > 0
    ensures Power(2, i) > 0 && Power(2, i - 1) > 0
    ensures a / Power(2, i) == a / 2 / Power(2, i - 1)
  {
    PowerPositive(2, i);
    PowerPositive(2, i - 1);
    var m := Power(2, i - 1);
    var q, r := a / 2 / m, a / 2 % m;
    assert a == 2 * (q * m + r) + a % 2;
    assert 2 * (q * m) == q * (2 * m);
    RemainderIs(a, 2 * m, q, 2 * r + a % 2);
  }

  /** Programming can clear bits but not set them: a bit is left set exactly when it was and is to be. */
  lemma AndBits(a: Byte, b: Byte, i: nat)
    requires i < 8
    ensures Power(2, i) > 0
    ensures And(a, b) / Power(2, i) % 2 == 1 <==> a / Power(2, i) % 2 == 1 && b / Power(2, i) % 2 == 1
  {
    PowerPositive(2, i);
    CommonBitsAt(a, b, 8, i);
  }

  /** Programming can clear bits but not set them. */
  function And(a: Byte, b: Byte): Byte { CommonBits(a, b, 8) }

  lemma AndErased(b: Byte)
    ensures And(255, b) == b
  {
    assert Power(2, 8) == 256;
    CommonWithOnes(255, b, 8);
  }

  datatype Latch = Empty | Holds(value: Byte)

  /** What the chip's page buffer holds for page offset `o`: the last byte that was shifted in for it. */
  function LatchAt(addr: nat, data: seq<Byte>, o: nat): Latch {
    if |data| == 0 then Empty
    else if (addr + |data| - 1) % PAGE_SIZE == o then Holds(data[|data| - 1])
    else LatchAt(addr, data[..|data| - 1], o)
  }

  function ProgramCell(cell: Byte, latch: Latch): Byte {
    match latch case Empty => cell case Holds(b) => And(cell, b)
  }

  /** The chip's page program: the bytes wrap around inside the page of `addr`. */
  function ProgramPage(mem: Memory, addr: nat, data: seq<Byte>): Memory {
    seq(SIZE, c requires 0 <= c < SIZE =>
      if c / PAGE_SIZE == addr / PAGE_SIZE then ProgramCell(mem[c], LatchAt(addr, data, c % PAGE_SIZE)) else mem[c])
  }

  /** The chip's sector erase. */
  function EraseSector(mem: Memory, addr: nat): Memory {
    seq(SIZE, c requires 0 <= c < SIZE => if c / SECTOR_SIZE == addr / SECTOR_SIZE then 255 else mem[c])
  }

  /** What the caller wants: one cell after the other, as if there were no pages. */
  function FlatWrite(mem: Memory, addr: nat, data: seq<Byte>): Memory
    decreases |data|
  {
    if |data| == 0 then mem
    else
      var n := |data| - 1;
      var before := FlatWrite(mem, addr, data[..n]);
      var c := (addr + n) % SIZE;
      before[c := And(before[c], data[n])]
  }

  lemma {:induction false} FlatWriteSplits(mem: Memory, addr: nat, xs: seq<Byte>, ys: seq<Byte>)
    ensures FlatWrite(mem, addr, xs + ys) == FlatWrite(FlatWrite(mem, addr, xs), addr + |xs|, ys)
    decreases |ys|
  {
    hide And;
    if |ys| == 0 {
      assert xs + ys == xs;
    } else {
      var n := |ys| - 1;
      assert (xs + ys)[..|xs| + n] == xs + ys[..n];
      FlatWriteSplits(mem, addr, xs, ys[..n]);
    }
  }

  /** Within one page the buffer holds each byte at its own place. */
  lemma {:induction false} LatchInPage(addr: nat, data: seq<Byte>, o: nat)
    requires addr % PAGE_SIZE + |data| <= PAGE_SIZE && o < PAGE_SIZE
    ensures
      var first := addr % PAGE_SIZE;
      LatchAt(addr, data, o) == if first <= o < first + |data| then Holds(data[o - first]) else Empty
    decreases |data|
  {
    if |data| == 0 {
    } else {
      var n := |data| - 1;
      LatchInPage(addr, data[..n], o);
      StepAround(addr, n, PAGE_SIZE);
      assert addr + |data| - 1 == addr + n;
    }
  }

  /** One cell of a flat write that does not run through the whole chip. */
  lemma {:induction false} FlatWriteAt(mem: Memory, addr: nat, data: seq<Byte>, c: nat)
    requires |data| <= SIZE && c < SIZE
    ensures
      var k := (c - addr) % SIZE;
      FlatWrite(mem, addr, data)[c] == if k < |data| then And(mem[c], data[k]) else mem[c]
    decreases |data|
  {
    hide And;
    if |data| == 0 {
    } else {
      var n := |data| - 1;
      FlatWriteAt(mem, addr, data[..n], c);
      DistanceOfCell(addr, n, c);
    }
  }

  lemma DistanceOfCell(addr: nat, n: nat, c: nat)
    requires n < SIZE && c < SIZE
    ensures (addr + n) % SIZE == c <==> (c - addr) % SIZE == n
  {
  }

  lemma ProgramCellIsFlat(mem: Memory, addr: nat, data: seq<Byte>, c: nat)
    requires addr % PAGE_SIZE + |data| <= PAGE_SIZE && c < SIZE
    ensures ProgramPage(mem, addr % SIZE, data)[c] == FlatWrite(mem, addr, data)[c]
  {
    hide And, FlatWrite, LatchAt;
    CellInPage(addr, |data|, c);
    FlatWriteAt(mem, addr, data, c);
    LatchInPage(addr % SIZE, data, c % PAGE_SIZE);
  }

  /** A chunk that stays in its page is programmed like a flat write. */
  lemma ProgramPageIsFlat(mem: Memory, addr: nat, data: seq<Byte>)
    requires addr % PAGE_SIZE + |data| <= PAGE_SIZE
    ensures ProgramPage(mem, addr % SIZE, data) == FlatWrite(mem, addr, data)
  {
    hide FlatWrite, ProgramPage;
    forall c | 0 <= c < SIZE ensures ProgramPage(mem, addr % SIZE, data)[c] == FlatWrite(mem, addr, data)[c] {
      ProgramCellIsFlat(mem, addr, data, c);
    }
  }

  lemma CellInPage(addr: nat, len: nat, c: nat)
    requires addr % PAGE_SIZE + len <= PAGE_SIZE && c < SIZE
    ensures addr % SIZE % PAGE_SIZE == addr % PAGE_SIZE
    ensures
      var first, k := addr % PAGE_SIZE, (c - addr) % SIZE;
      if c / PAGE_SIZE == addr % SIZE / PAGE_SIZE && first <= c % PAGE_SIZE < first + len
      then k == c % PAGE_SIZE - first else k >= len
  {
    var turns, at := addr / SIZE, addr % SIZE;
    var page, first := at / PAGE_SIZE, at % PAGE_SIZE;
    assert addr == SIZE * turns + at && at == PAGE_SIZE * page + first;
    RemainderIs(addr, PAGE_SIZE, 65536 * turns + page, first);
    if c >= at {
      RemainderIs(c - addr, SIZE, -turns, c - at);
    } else {
      RemainderIs(c - addr, SIZE, -turns - 1, c - at + SIZE);
    }
    CellBeyond(page, first, len, c / PAGE_SIZE, c % PAGE_SIZE);
  }

  /** Cells outside the first `len` of a page from `first` on lie at least `len` behind, around the chip. */
  lemma CellBeyond(page: nat, first: nat, len: nat, cellPage: nat, cellOffset: nat)
    requires page < 65536 && first + len <= PAGE_SIZE && cellPage < 65536 && cellOffset < PAGE_SIZE
    ensures
      var d := PAGE_SIZE * cellPage + cellOffset - (PAGE_SIZE * page + first);
      if cellPage == page && first <= cellOffset < first + len then d == cellOffset - first
      else if d >= 0 then d >= len else d + SIZE >= len
  {
  }

  /** On erased cells a write stores exactly its data, and touches nothing else. */
  lemma WriteAfterErase(mem: Memory, addr: nat, data: seq<Byte>, c: nat)
    requires |data| <= SIZE && c < SIZE
    requires forall c :: 0 <= c < SIZE && (c - addr) % SIZE < |data| ==> mem[c] == 255
    ensures
      var k := (c - addr) % SIZE;
      FlatWrite(mem, addr, data)[c] == if k < |data| then data[k] else mem[c]
  {
    hide And;
    FlatWriteAt(mem, addr, data, c);
    var k := (c - addr) % SIZE;
    if k < |data| {
      AndErased(data[k]);
    }
  }

  // ----- the chip on the bus

  const FLASH_WRITE_CMD: Byte := 0x02
  const FLASH_READ_STATUS_CMD: Byte := 0x05
  const FLASH_WRITE_ENABLE_CMD: Byte := 0x06
  const FLASH_SECT_ERASE_CMD: Byte := 0x20

  /** The 24-bit address in a command's second to fourth byte. */
  function CommandAddr(shifted: seq<Byte>): nat
    requires |shifted| >= 4
  {
    Addr24(shifted[1], shifted[2], shifted[3])
  }

  function Addr24(high: int, middle: int, low: int): int { high * 0x10000 + middle * 0x100 + low }

  class Chip {
    var mem: Memory
    /** Chip select, and the bytes shifted in since it went low. */
    var selected: bool
    var shifted: seq<Byte>
    var writeEnabled: bool
    /** The status polls for which the chip stays busy, and how many a program or erase takes. */
    var busy: nat
    const duration: nat
    /** Every command that was shifted in whole. */
    ghost var bus: seq<seq<Byte>>
    /** Commands the chip had to ignore: sent while busy, or without write enable. */
    ghost var ignored: nat

    constructor (mem: Memory, duration: nat)
      requires 0 < duration < 10000000
      ensures this.mem == mem && !selected && busy == 0 && ignored == 0 && bus == [] && this.duration == duration
    {
      this.mem, this.duration := mem, duration;
      selected, shifted, writeEnabled, busy, ignored, bus := false, [], false, 0, 0, [];
    }

    /** Chip select goes high: the command that was shifted in takes effect. */
    method Deselect()
      modifies this
      ensures !selected && shifted == [] && bus == old(bus) + if old(selected) then [old(shifted)] else []
      ensures !old(selected) || old(shifted) == [] || old(shifted)[0] == FLASH_READ_STATUS_CMD ==>
        mem == old(mem) && writeEnabled == old(writeEnabled) && busy == old(busy) && ignored == old(ignored)
      ensures old(selected && busy == 0 && shifted == [FLASH_WRITE_ENABLE_CMD]) ==>
        mem == old(mem) && writeEnabled && busy == 0 && ignored == old(ignored)
      ensures old(selected && busy == 0 && |shifted| == 4 && shifted[0] == FLASH_WRITE_CMD) ==>
        mem == old(mem) && busy == 0 && ignored == old(ignored)
      ensures old(selected && busy == 0 && writeEnabled && |shifted| > 4 && shifted[0] == FLASH_WRITE_CMD) ==>
        mem == old(ProgramPage(mem, CommandAddr(shifted), shifted[4..])) && busy == duration && ignored == old(ignored)
      ensures old(selected && busy == 0 && writeEnabled && |shifted| == 4 && shifted[0] == FLASH_SECT_ERASE_CMD) ==>
        mem == old(EraseSector(mem, CommandAddr(shifted))) && busy == duration && ignored == old(ignored)
    {
      hide ProgramPage, EraseSector;
      if selected && shifted != [] && shifted[0] != FLASH_READ_STATUS_CMD {
        if busy > 0 {
          ignored := ignored + 1;
        } else if shifted == [FLASH_WRITE_ENABLE_CMD] {
          writeEnabled := true;
        } else if shifted[0] == FLASH_WRITE_CMD && |shifted| == 4 {
          // no data: the chip does not start a program
        } else if writeEnabled && shifted[0] == FLASH_WRITE_CMD && |shifted| > 4 {
          mem := ProgramPage(mem, CommandAddr(shifted), shifted[4..]);
          writeEnabled, busy := false, duration;
        } else if writeEnabled && shifted[0] == FLASH_SECT_ERASE_CMD && |shifted| == 4 {
          mem := EraseSector(mem, CommandAddr(shifted));
          writeEnabled, busy := false, duration;
        } else {
          ignored := ignored + 1;
        }
      }
      bus := bus + if selected then [shifted] else [];
      selected, shifted := false, [];
    }

    method Select()
      modifies `selected, `shifted
      ensures selected && shifted == []
    {
      selected, shifted := true, [];
    }

    /** One byte on the bus. */
    method ShiftIn(c: Byte)
      requires selected
      modifies `shifted
      ensures shifted == old(shifted) + [c]
    {
      shifted := shifted + [c];
    }

    /** One status byte from the bus, in a read-status command. */
    method ShiftOutStatus() returns (status: Byte)
      requires selected && shifted == [FLASH_READ_STATUS_CMD]
      modifies `busy
      ensures status % 2 == 1 <==> old(busy) > 0
      ensures busy == if old(busy) > 0 then old(busy) - 1 else 0
    {
      status := if busy > 0 then 1 else 0;
      busy := if busy > 0 then busy - 1 else 0;
    }
  }

  // ----- the driver

  /** What one whole bus command does to the memory. */
  function Effect(mem: Memory, cmd: Byte, addr: nat, data: seq<Byte>): Memory {
    if cmd == FLASH_WRITE_CMD && |data| > 0 then ProgramPage(mem, addr % SIZE, data)
    else if cmd == FLASH_SECT_ERASE_CMD then EraseSector(mem, addr % SIZE)
    else mem
  }

  /** Three bytes, most significant first. */
  function AddrBytes(addr: nat): (bs: seq<Byte>)
    ensures |bs| == 3
  {
    [addr / 0x10000 % 256, addr / 0x100 % 256, addr % 256]
  }

  class Driver {
    const chip: Chip

    constructor (chip: Chip)
      ensures this.chip == chip
    {
      this.chip := chip;
    }

    /** The chip waits for a command. */
    ghost predicate Idle()
      reads chip
    {
      !chip.selected && chip.busy == 0 && 0 < chip.duration < 10000000
    }

    /** `flash_send_cmd`: raises chip select, which completes a write enable still on the bus, and begins a command. */
    method SendCmd(cmd: Byte)
      requires !chip.selected || (chip.shifted == [FLASH_WRITE_ENABLE_CMD] && chip.busy == 0)
      modifies chip
      ensures chip.selected && chip.shifted == [cmd]
      ensures chip.bus == old(chip.bus) + if old(chip.selected) then [old(chip.shifted)] else []
      ensures chip.mem == old(chip.mem) && chip.busy == old(chip.busy) && chip.ignored == old(chip.ignored)
      ensures chip.writeEnabled == (old(chip.selected) || old(chip.writeEnabled))
    {
      chip.Deselect();
      chip.Select();
      chip.ShiftIn(cmd);
    }

    /** `flash_send_addr`: three bytes, most significant first. */
    method SendAddr(addr: nat)
      requires chip.selected && |chip.shifted| == 1
      modifies chip`shifted
      ensures chip.shifted == old(chip.shifted) + AddrBytes(addr)
      ensures CommandAddr(chip.shifted) == addr % SIZE
    {
      chip.ShiftIn(addr / 0x10000 % 256);
      chip.ShiftIn(addr / 0x100 % 256);
      chip.ShiftIn(addr % 256);
      AddressBytes(addr);
    }

    /** `flash_wait_done`: polls the status until the chip is no longer busy. */
    method WaitDone()
      requires !chip.selected && chip.busy < 10000000
      modifies chip
      ensures !chip.selected && chip.busy == 0 && chip.bus == old(chip.bus) + [[0x05]]
      ensures chip.mem == old(chip.mem) && chip.writeEnabled == old(chip.writeEnabled) && chip.ignored == old(chip.ignored)
    {
      SendCmd(FLASH_READ_STATUS_CMD);
      var i := 0;
      while i < 10000000
        invariant i <= 10000000
        invariant chip.selected && chip.shifted == [FLASH_READ_STATUS_CMD]
        invariant chip.busy + i <= old(chip.busy) || chip.busy == 0
        invariant chip.mem == old(chip.mem) && chip.writeEnabled == old(chip.writeEnabled)
        invariant chip.ignored == old(chip.ignored) && chip.bus == old(chip.bus)
        decreases 10000000 - i
      {
        var status := chip.ShiftOutStatus();
        if status % 2 == 0 {
          break;
        }
        i := i + 1;
      }
      chip.Deselect();
    }

    /**
     `flash_mspi_write_ram` for a program or a sector erase: write enable, the command with its address and
     data, and the wait. The chip never has to ignore anything.
     */
    method MspiWriteRam(cmd: Byte, addr: nat, data: seq<Byte>)
      requires Idle()
      requires cmd == FLASH_WRITE_CMD || (cmd == FLASH_SECT_ERASE_CMD && data == [])
      modifies chip
      ensures Idle() && chip.ignored == old(chip.ignored)
      ensures chip.mem == Effect(old(chip.mem), cmd, addr, data)
      ensures chip.bus == old(chip.bus)
                          + [[0x06], [cmd] + AddrBytes(addr) + data, [0x05]]
    {
      hide ProgramPage, EraseSector, AddrBytes;
      SendCmd(FLASH_WRITE_ENABLE_CMD);
      SendCmd(cmd);
      SendAddr(addr);
      ghost var head := chip.shifted;
      for i := 0 to |data|
        invariant chip.selected && chip.shifted == head + data[..i]
        invariant chip.mem == old(chip.mem) && chip.writeEnabled && chip.busy == 0 && chip.ignored == old(chip.ignored)
        invariant chip.bus == old(chip.bus) + [[0x06]]
      {
        chip.ShiftIn(data[i]);
      }
      assert chip.shifted[4..] == data;
      chip.Deselect();
      WaitDone();
    }

    /** `flash_erase_sector` */
    method EraseSectorAt(addr: nat)
      requires Idle()
      modifies chip
      ensures Idle() && chip.ignored == old(chip.ignored)
      ensures forall c :: 0 <= c < SIZE ==> chip.mem[c] == if c / 4096 == addr % SIZE / 4096 then 255 else old(chip.mem)[c]
      ensures chip.bus == old(chip.bus) + [[0x06], [0x20, addr / 0x10000 % 256, addr / 0x100 % 256, addr % 256], [0x05]]
    {
      MspiWriteRam(FLASH_SECT_ERASE_CMD, addr, []);
      assert chip.mem == EraseSector(old(chip.mem), addr % SIZE);
      assert [0x20] + AddrBytes(addr) + [] == [0x20, addr / 0x10000 % 256, addr / 0x100 % 256, addr % 256];
    }

    /**
     `flash_page_program` from RAM: chunk by chunk, none across a page, the whole equals one flat write. As in
     the source a chunk is sent even when there is nothing to write.
     */
    method PageProgram(addr0: nat, buf: seq<Byte>)
      requires Idle()
      modifies chip
      ensures Idle() && chip.ignored == old(chip.ignored)
      ensures chip.mem == FlatWrite(old(chip.mem), addr0, buf)
    {
      hide ProgramPage, FlatWrite;
      var addr, done, ns := addr0, 0, PAGE_SIZE - addr0 % PAGE_SIZE;
      FlatWriteNothing(chip.mem, addr0);
      assert buf[..0] == [];
      var more := true;
      while more
        invariant Idle() && chip.ignored == old(chip.ignored)
        invariant 0 <= done <= |buf| && addr == addr0 + done
        invariant more ==> ns == PAGE_SIZE - addr % PAGE_SIZE
        invariant !more ==> done == |buf|
        invariant chip.mem == FlatWrite(old(chip.mem), addr0, buf[..done])
        decreases more, |buf| - done
      {
        var len := |buf| - done;
        var nw := if len > ns then ns else len;
        var chunk := buf[done..done + nw];
        NextPage(addr);
        FlatWriteNothing(chip.mem, addr);
        ProgramPageIsFlat(chip.mem, addr, chunk);
        FlatWriteSplits(old(chip.mem), addr0, buf[..done], chunk);
        assert buf[..done] + chunk == buf[..done + nw];
        MspiWriteRam(FLASH_WRITE_CMD, addr, chunk);
        ns := PAGE_SIZE;
        addr := addr + nw;
        done := done + nw;
        more := |buf| - done > 0;
      }
      assert buf[..done] == buf;
    }
  }

  lemma FlatWriteNothing(mem: Memory, addr: nat)
    ensures FlatWrite(mem, addr, []) == mem
  {
  }

  lemma NextPage(addr: nat)
    ensures (addr + (PAGE_SIZE - addr % PAGE_SIZE)) % PAGE_SIZE == 0
  {
    var page := addr / PAGE_SIZE;
    assert addr + (PAGE_SIZE - addr % PAGE_SIZE) == PAGE_SIZE * (page + 1);
  }

  lemma AddressBytes(addr: nat)
    ensures Addr24(addr / 0x10000 % 256, addr / 0x100 % 256, addr % 256) == addr % SIZE
  {
    var a, b := addr / 0x10000, addr / 0x100;
    assert addr == 0x100 * b + addr % 256 && b == 256 * a + b % 256 && a == 256 * (a / 256) + a % 256;
    RemainderIs(addr, SIZE, a / 256, Addr24(a % 256, b % 256, addr % 256));
  }
}
