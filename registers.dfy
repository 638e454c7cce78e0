/** The `RTC_MCP7940X` driver of MCP7940x.cpp: how it lays the fields of a
    `DateTime` out in the chip's registers and reads them back, the power
    stamps, the battery flag, the SRAM window, the unique-ID block and the
    square-wave output.

    The chip is two devices on the I2C bus: the clock with its registers at
    bus address 0x6F and the unique-ID EEPROM at 0x57. Each is a 256-byte
    array whose current register address the bus transaction sets and every byte
    moves on by one (wrapping at 256). A block transfer copies bytes in or
    out; every write transaction is also kept, in order, in `writes`. */
module Rtc {
  import opened CTypes
  import opened Bcd
  import opened Calendar

  // ---------------------------------------------------------------------
  // Register constants (MCP7940x.h)

  const MCP7940X_ADDRESS: uint8 := 0x6F
  const MCP7940X_MAC: uint8 := 0x57

  /** The weekday register: bits 0-2 weekday, bit 3 battery enable, bit 4
      the power-fail flag, bit 5 oscillator running. */
  const MCP7940X_OSC_BAT: uint8 := 0x03
  const MCP7940X_CTRLREG: uint8 := 0x07

  const MCP7940X_MFP_LOGIC_HIGH: byte := 0x80
  const MCP7940X_MFP_SQWE_ON: byte := 0x40

  const MCP7940X_MFP_1HZ: byte := 0x00
  const MCP7940X_MFP_4096HZ: byte := 0x01
  const MCP7940X_MFP_8192HZ: byte := 0x02
  const MCP7940X_MFP_32768HZ: byte := 0x03
  const MCP7940X_MFP_CALOUT: byte := 0x04

  /** The register that guards the unique-ID area: `setmac` writes 0x55 and
      0xAA to it before and after the ID block. */
  const UNLOCK_REG: uint8 := 0x09

  /** Where the SRAM window starts, and the bound of the clamp in
      `WriteSRAM`. */
  const SRAM_START: int := 0x20
  const SRAM_LIMIT: int := 0x5F

  /** One write transaction on the bus: device, first register, bytes. */
  datatype Transaction = Transaction(address: uint8, offset: uint8, data: seq<byte>)

  // ---------------------------------------------------------------------
  // The register array

  /** The `count` bytes a block read starting at `offset` returns. */
  function Block(mem: seq<byte>, offset: uint8, count: nat): (r: seq<byte>)
    requires |mem| == 256
    ensures |r| == count
  {
    seq(count, i requires 0 <= i < count => mem[(offset + i) % 256])
  }

  /** The array after a block write of `data` starting at `offset`. */
  function Written(mem: seq<byte>, offset: uint8, data: seq<byte>): (r: seq<byte>)
    requires |mem| == 256 && |data| <= 256
    ensures |r| == 256
  {
    seq(256, a requires 0 <= a < 256 =>
      if (a - offset) % 256 < |data| then data[(a - offset) % 256] else mem[a])
  }

  /** What a block write puts in, the block read at the same place gives
      back. */
  lemma ReadAfterWrite(mem: seq<byte>, offset: uint8, data: seq<byte>)
    requires |mem| == 256 && |data| <= 256
    ensures Block(Written(mem, offset, data), offset, |data|) == data
  {
    var r := Block(Written(mem, offset, data), offset, |data|);
    forall i | 0 <= i < |data|
      ensures r[i] == data[i]
    {
      assert ((offset + i) % 256 - offset) % 256 == i;
    }
  }

  /** A block write changes no register outside the bytes it writes. */
  lemma WriteFrame(mem: seq<byte>, offset: uint8, data: seq<byte>, a: int)
    requires |mem| == 256 && |data| <= 256
    requires 0 <= a < 256 && (a - offset) % 256 >= |data|
    ensures Written(mem, offset, data)[a] == mem[a]
  {
  }

  /** Writing one more byte is one more register update. */
  lemma WrittenStep(mem: seq<byte>, offset: uint8, data: seq<byte>, x: byte)
    requires |mem| == 256 && |data| < 256
    ensures Written(mem, offset, data + [x]) == Written(mem, offset, data)[(offset + |data|) % 256 := x]
  {
    var a := (offset + |data|) % 256;
    assert (a - offset) % 256 == |data|;
  }

  /** A one-byte block write is a single register update. */
  lemma WrittenSingle(mem: seq<byte>, offset: uint8, x: byte)
    requires |mem| == 256
    ensures Written(mem, offset, [x]) == mem[offset := x]
  {
    WrittenStep(mem, offset, [], x);
    assert Written(mem, offset, []) == mem;
  }

  /** A register written last keeps only its last value, whatever an earlier
      write put there. */
  lemma WrittenOverwrite(mem: seq<byte>, a: uint8, x: byte, offset: uint8, data: seq<byte>, y: byte)
    requires |mem| == 256 && |data| <= 256
    ensures Written(mem[a := x], offset, data)[a := y] == Written(mem, offset, data)[a := y]
  {
  }

  // ---------------------------------------------------------------------
  // The time registers 0x00..0x07

  /** The eight bytes `adjust` writes from register 0 on: BCD seconds with
      the oscillator-start bit 7 set, minutes, hours, the weekday register
      as `bin2bcd(1|0x08)` (weekday 1, battery enabled), date, month, the
      year as an offset from 2000, and 0 in the control register. */
  function TimeBlock(dt: DateTime): (r: seq<byte>)
    ensures |r| == 8
    ensures r[0] & 0x80 == 0x80 && r[3] == 0x09 && r[7] == 0
  {
    [Bin2Bcd(ToByte(dt.ss)) | 0x80,
     Bin2Bcd(ToByte(dt.mm)),
     Bin2Bcd(ToByte(dt.hh)),
     Bin2Bcd(1 | 0x08),
     Bin2Bcd(ToByte(dt.d)),
     Bin2Bcd(ToByte(dt.m)),
     Bin2Bcd(ToByte(dt.Year() - 2000)),
     0]
  }

  /** What `now` makes of the seven bytes from register 0 on: seconds
      without bit 7, month without bits 5-7, the weekday register unused,
      and the year register taken as years since 2000. */
  function DecodeTime(b: seq<byte>): (dt: DateTime)
    requires |b| >= 7
    ensures dt.Year() == 2000 + Bcd2Bin(b[6]) as int
  {
    var y: uint16 := Bcd2Bin(b[6]) as int + 2000;
    FromComponents(y, Bcd2Bin(b[5] & 0x1F) as int, Bcd2Bin(b[4]) as int,
                   Bcd2Bin(b[2]) as int, Bcd2Bin(b[1]) as int, Bcd2Bin(b[0] & 0x7F) as int)
  }

  /** The weekday register, bit 7 of the seconds and bits 5-7 of the month
      play no part in what `now` returns. */
  lemma DecodeTimeIgnoresFlags(b: seq<byte>, c: seq<byte>)
    requires |b| >= 7 && |c| >= 7
    requires b[0] & 0x7F == c[0] & 0x7F && b[5] & 0x1F == c[5] & 0x1F
    requires b[1] == c[1] && b[2] == c[2] && b[4] == c[4] && b[6] == c[6]
    ensures DecodeTime(b) == DecodeTime(c)
  {
  }

  /** The fields that survive the register layout: a field goes through
      BCD and back when below 160, the seconds lose bit 7 to the mask
      (so below 80) and the month loses bits 5-7 (so below 20). */
  predicate Encodable(dt: DateTime) {
    && dt.yOff < 160 && dt.d < 160 && dt.hh < 160 && dt.mm < 160
    && dt.ss < 80 && dt.m < 20
  }

  /** A `uint8_t` field, held in the byte `v`, through `bin2bcd` and
      `bcd2bin`. */
  lemma FieldRoundTrip(x: uint8, v: byte)
    requires v as int == x
    ensures Bcd2Bin(Bin2Bcd(v)) as int == x <==> x < 160
  {
    Bin2BcdRoundTrip(v);
    assert Bcd2Bin(Bin2Bcd(v)) == v <==> Bcd2Bin(Bin2Bcd(v)) as int == v as int;
  }

  /** The seconds through `bin2bcd(ss)|0x80`, the mask 0x7F and `bcd2bin`. */
  lemma SecondsFieldRoundTrip(x: uint8, v: byte)
    requires v as int == x
    ensures Bcd2Bin((Bin2Bcd(v) | 0x80) & 0x7F) as int == x <==> x < 80
  {
    assert Bcd2Bin((Bin2Bcd(v) | 0x80) & 0x7F) == v <==> v < 80;
  }

  /** The month through `bin2bcd`, the mask 0x1F and `bcd2bin`. */
  lemma MonthRoundTrip(x: uint8, v: byte)
    requires v as int == x
    ensures Bcd2Bin(Bin2Bcd(v) & 0x1F) as int == x <==> x < 20
  {
    assert Bcd2Bin(Bin2Bcd(v) & 0x1F) == v <==> v < 20;
  }

  // Field by field, what `now` makes of the bytes `adjust` writes.

  lemma DecodeYearField(dt: DateTime)
    ensures DecodeTime(TimeBlock(dt)).yOff == dt.yOff <==> dt.yOff < 160
  {
    var b := TimeBlock(dt);
    assert b[6] == Bin2Bcd(ToByte(dt.yOff));
    assert DecodeTime(b).yOff == Bcd2Bin(b[6]) as int;
    FieldRoundTrip(dt.yOff, ToByte(dt.yOff));
  }

  lemma DecodeMonthField(dt: DateTime)
    ensures DecodeTime(TimeBlock(dt)).m == dt.m <==> dt.m < 20
  {
    var b := TimeBlock(dt);
    assert DecodeTime(b).m == Bcd2Bin(b[5] & 0x1F) as int;
    MonthRoundTrip(dt.m, ToByte(dt.m));
  }

  lemma DecodeDayField(dt: DateTime)
    ensures DecodeTime(TimeBlock(dt)).d == dt.d <==> dt.d < 160
  {
    var b := TimeBlock(dt);
    assert DecodeTime(b).d == Bcd2Bin(b[4]) as int;
    FieldRoundTrip(dt.d, ToByte(dt.d));
  }

  lemma DecodeHourField(dt: DateTime)
    ensures DecodeTime(TimeBlock(dt)).hh == dt.hh <==> dt.hh < 160
  {
    var b := TimeBlock(dt);
    assert DecodeTime(b).hh == Bcd2Bin(b[2]) as int;
    FieldRoundTrip(dt.hh, ToByte(dt.hh));
  }

  lemma DecodeMinuteField(dt: DateTime)
    ensures DecodeTime(TimeBlock(dt)).mm == dt.mm <==> dt.mm < 160
  {
    var b := TimeBlock(dt);
    assert DecodeTime(b).mm == Bcd2Bin(b[1]) as int;
    FieldRoundTrip(dt.mm, ToByte(dt.mm));
  }

  lemma DecodeSecondField(dt: DateTime)
    ensures DecodeTime(TimeBlock(dt)).ss == dt.ss <==> dt.ss < 80
  {
    var b := TimeBlock(dt);
    assert DecodeTime(b).ss == Bcd2Bin(b[0] & 0x7F) as int;
    SecondsFieldRoundTrip(dt.ss, ToByte(dt.ss));
  }

  /** `now` reads back what `adjust` wrote exactly for the timestamps whose
      fields survive the layout, and every calendar-valid timestamp is one
      of them. */
  lemma DecodeTimeBlock(dt: DateTime)
    ensures DecodeTime(TimeBlock(dt)) == dt <==> Encodable(dt)
    ensures IsValid(dt) ==> DecodeTime(TimeBlock(dt)) == dt
  {
    DecodeYearField(dt);
    DecodeMonthField(dt);
    DecodeDayField(dt);
    DecodeHourField(dt);
    DecodeMinuteField(dt);
    DecodeSecondField(dt);
  }

  /** The round trip through the device: `adjust` then `now`, whatever the
      registers held before. */
  lemma NowAfterAdjust(mem: seq<byte>, dt: DateTime)
    requires |mem| == 256
    ensures DecodeTime(Block(Written(mem, 0, TimeBlock(dt)), 0, 7)) == dt <==> Encodable(dt)
  {
    ReadAfterWrite(mem, 0, TimeBlock(dt));
    assert Block(Written(mem, 0, TimeBlock(dt)), 0, 7) == Block(Written(mem, 0, TimeBlock(dt)), 0, 8)[..7];
    DecodeTimeBlock(dt);
    assert DecodeTime(TimeBlock(dt)[..7]) == DecodeTime(TimeBlock(dt));
  }

  // ---------------------------------------------------------------------
  // The power-down and power-up stamps

  /** What `GetPwrOn` and `GetPwrFail` make of a four-byte stamp: minutes,
      hours, date and month (without bits 5-7, which hold the weekday); the
      chip stores neither seconds nor year, so both are 0. */
  function DecodeStamp(b: seq<byte>): (dt: DateTime)
    requires |b| >= 4
    ensures dt.ss == 0 && dt.yOff == 0 && dt.Year() == 2000
  {
    FromComponents(0, Bcd2Bin(b[3] & 0x1F) as int, Bcd2Bin(b[2]) as int,
                   Bcd2Bin(b[1]) as int, Bcd2Bin(b[0]) as int, 0)
  }

  /** The four bytes of a stamp as the chip stores it: BCD minutes, hours,
      date, and the month with the weekday in bits 5-7. */
  function StampBlock(dt: DateTime, weekday: byte): (b: seq<byte>)
    requires weekday < 8
    ensures |b| == 4
  {
    [Bin2Bcd(ToByte(dt.mm)), Bin2Bcd(ToByte(dt.hh)), Bin2Bcd(ToByte(dt.d)),
     Bin2Bcd(ToByte(dt.m)) | (weekday << 5)]
  }

  /** A stamp of a valid timestamp reads back with its minute, hour, day and
      month, whatever the weekday, and with second 0 and year 2000. */
  lemma DecodeStampBlock(dt: DateTime, weekday: byte)
    requires IsValid(dt) && weekday < 8
    ensures DecodeStamp(StampBlock(dt, weekday)) == DateTime(0, dt.m, dt.d, dt.hh, dt.mm, 0)
  {
    var b := StampBlock(dt, weekday);
    FieldRoundTrip(dt.mm, ToByte(dt.mm));
    FieldRoundTrip(dt.hh, ToByte(dt.hh));
    FieldRoundTrip(dt.d, ToByte(dt.d));
    StampMonthMask(ToByte(dt.m), weekday);
    FieldRoundTrip(dt.m, ToByte(dt.m));
  }

  /** The weekday in bits 5-7 of a stamp's month byte does not reach the
      BCD month below it. */
  lemma StampMonthMask(v: byte, weekday: byte)
    requires v as int < 20 && weekday < 8
    ensures (Bin2Bcd(v) | (weekday << 5)) & 0x1F == Bin2Bcd(v)
  {
  }

  // ---------------------------------------------------------------------
  // Bytes composed by the driver

  /** `dayfield &= 0xEF`: bit 4 (the power-fail flag) cleared, the other
      bits kept. */
  lemma ClearFlagBit(b: byte, i: nat)
    requires i < 8
    ensures ((b & 0xEF) >> i) & 1 == (if i == 4 then 0 else (b >> i) & 1)
  {
  }

  /** The byte `SetSQW` writes to the control register: the rate in bits
      0-2, square wave on (bit 6) and output high (bit 7). */
  function SqwControl(rate: byte): (c: byte)
    ensures c & 0x07 == rate & 0x07
    ensures c & 0xC0 == 0xC0 && c & 0x38 == 0
  {
    (rate & 0x07) | MCP7940X_MFP_SQWE_ON | MCP7940X_MFP_LOGIC_HIGH
  }

  /** The five rate codes pass the 0x07 mask unchanged, so the control byte
      is 0xC0 plus the code. */
  lemma SqwRateCodes(rate: byte)
    requires MCP7940X_MFP_1HZ <= rate <= MCP7940X_MFP_CALOUT
    ensures rate & 0x07 == rate
    ensures SqwControl(rate) == 0xC0 | rate
  {
  }

  /** The byte count `WriteSRAM` uses, as written: when the write would run
      past 0x5F the count becomes `0x3F + Index`, stored into a `uint8_t`. */
  function SramWriteCount(index: uint8, count: uint8): (r: uint8)
    ensures SRAM_START + index + count <= SRAM_LIMIT ==> r == count
    ensures SRAM_START + index + count > SRAM_LIMIT ==> r == (0x3F + index) % 0x100
  {
    if SRAM_START + index + count > SRAM_LIMIT then ToUint8(0x3F + index) else count
  }

  /** The clamp as written does not clamp: from index 1 on, a write that
      runs past 0x5F still runs past it with the new count. */
  lemma SramWriteCountOverruns(index: uint8, count: uint8)
    requires 1 <= index <= 0xC0 && SRAM_START + index + count > SRAM_LIMIT
    ensures SRAM_START + index + SramWriteCount(index, count) > SRAM_LIMIT
  {
  }

  /** Index 20 with 50 bytes: the count becomes 83, more than asked for,
      and the write ends at 0x86. */
  lemma SramWriteCountExample()
    ensures SramWriteCount(20, 50) == 83
    ensures SRAM_START + 20 + SramWriteCount(20, 50) - 1 == 0x86
  {
  }

  /** The clamp that stops the write before 0x5F, as the guard means it: the
      count is cut to `0x3F - Index`, or to nothing when the index is
      already past the window. */
  function SramWriteCountIntended(index: uint8, count: uint8): (r: uint8)
    ensures r <= count
    ensures index <= 0x3F ==> SRAM_START + index + r <= SRAM_LIMIT
    ensures index > 0x3F ==> r == 0
    ensures SRAM_START + index + count <= SRAM_LIMIT ==> r == count
    ensures SRAM_START + index + count > SRAM_LIMIT && index <= 0x3F ==> SRAM_START + index + r == SRAM_LIMIT
  {
    if SRAM_START + index + count <= SRAM_LIMIT then count
    else if index <= 0x3F then 0x3F - index
    else 0
  }

  /** The guard's bound is exclusive: a write it lets through keeps its count
      and stops at 0x5E, and so does the corrected clamp. A one-byte write to
      register 0x5F trips the guard; the corrected clamp then writes nothing,
      and the clamp as written writes 126 bytes. */
  lemma SramGuardBound(index: uint8, count: uint8)
    ensures 1 <= count && SRAM_START + index + count <= SRAM_LIMIT ==>
      SramWriteCount(index, count) == count && SRAM_START + index + count - 1 < SRAM_LIMIT
    ensures index <= 0x3F && 1 <= SramWriteCountIntended(index, count) ==>
      SRAM_START + index + SramWriteCountIntended(index, count) - 1 < SRAM_LIMIT
    ensures SramWriteCountIntended(0x3F, 1) == 0 && SramWriteCount(0x3F, 1) == 0x7E
  {
  }

  // ---------------------------------------------------------------------
  // The device

  class Rtc {
    /** The registers of the clock, bus address 0x6F. */
    const regs: array<byte>
    /** The unique-ID EEPROM, bus address 0x57. */
    const uid: array<byte>
    /** Every write transaction so far, oldest first. */
    var writes: seq<Transaction>

    predicate Valid()
      reads this
    {
      regs.Length == 256 && uid.Length == 256 && regs != uid
    }

    /** The device answering at a bus address. */
    function Memory(address: uint8): (m: seq<byte>)
      requires Valid()
      reads this, regs, uid
      ensures |m| == 256
    {
      if address == MCP7940X_MAC then uid[..] else regs[..]
    }

    constructor (clock: seq<byte>, id: seq<byte>)
      requires |clock| == 256 && |id| == 256
      ensures Valid() && fresh(regs) && fresh(uid)
      ensures regs[..] == clock && uid[..] == id && writes == []
    {
      regs := new byte[256](i requires 0 <= i < 256 => clock[i]);
      uid := new byte[256](i requires 0 <= i < 256 => id[i]);
      writes := [];
    }

    /** `readRegisterBlock`, without its timeout: `count` bytes from
        `offset` on into `data`, returning how many were read. */
    method ReadRegisterBlock(address: uint8, offset: uint8, data: array<byte>, count: uint8) returns (n: int)
      requires Valid() && (address == MCP7940X_ADDRESS || address == MCP7940X_MAC)
      requires data != regs && data != uid && count <= data.Length
      modifies data
      ensures n == count
      ensures data[..count] == Block(Memory(address), offset, count)
      ensures data[count..] == old(data[count..])
    {
      var mem := if address == MCP7940X_MAC then uid else regs;
      n := 0;
      while n < count
        invariant 0 <= n <= count
        invariant data[..n] == Block(mem[..], offset, n)
        invariant data[count..] == old(data[count..])
      {
        data[n] := mem[(offset + n) % 256];
        n := n + 1;
      }
    }

    /** `writeRegisterBlock`: one write transaction putting `count` bytes of
        `data` into the device from `offset` on. */
    method WriteRegisterBlock(address: uint8, offset: uint8, data: array<byte>, count: uint8) returns (n: int)
      requires Valid() && (address == MCP7940X_ADDRESS || address == MCP7940X_MAC)
      requires data != regs && data != uid && count <= data.Length
      modifies this, regs, uid
      ensures Valid() && n == count
      ensures writes == old(writes) + [Transaction(address, offset, data[..count])]
      ensures Memory(address) == Written(old(Memory(address)), offset, data[..count])
      ensures address == MCP7940X_MAC ==> regs[..] == old(regs[..])
      ensures address != MCP7940X_MAC ==> uid[..] == old(uid[..])
    {
      var mem := if address == MCP7940X_MAC then uid else regs;
      ghost var mem0 := mem[..];
      n := 0;
      while n < count
        invariant 0 <= n <= count
        invariant mem[..] == Written(mem0, offset, data[..n])
        invariant regs[..] == old(regs[..]) || mem == regs
        invariant uid[..] == old(uid[..]) || mem == uid
        invariant data[..] == old(data[..])
        modifies mem
      {
        WrittenStep(mem0, offset, data[..n], data[n]);
        assert data[..n + 1] == data[..n] + [data[n]];
        mem[(offset + n) % 256] := data[n];
        n := n + 1;
      }
      writes := writes + [Transaction(address, offset, data[..count])];
    }

    /** `readRegister`: one register. */
    method ReadRegister(address: uint8, offset: uint8) returns (value: byte)
      requires Valid() && (address == MCP7940X_ADDRESS || address == MCP7940X_MAC)
      ensures value == Memory(address)[offset]
    {
      var buffer := new byte[1];
      var n := ReadRegisterBlock(address, offset, buffer, 1);
      value := buffer[0];
    }

    /** `writeRegister`: a one-byte write transaction. */
    method WriteRegister(address: uint8, offset: uint8, value: byte)
      requires Valid() && (address == MCP7940X_ADDRESS || address == MCP7940X_MAC)
      modifies this, regs, uid
      ensures Valid()
      ensures writes == old(writes) + [Transaction(address, offset, [value])]
      ensures Memory(address) == old(Memory(address))[offset := value]
      ensures address == MCP7940X_MAC ==> regs[..] == old(regs[..])
      ensures address != MCP7940X_MAC ==> uid[..] == old(uid[..])
    {
      var buffer := new byte[1];
      buffer[0] := value;
      var n := WriteRegisterBlock(address, offset, buffer, 1);
      assert buffer[..1] == [value];
      WrittenSingle(old(Memory(address)), offset, value);
    }

    /** `adjust`: the eight time bytes in one transaction from register 0. */
    method Adjust(dt: DateTime)
      requires Valid()
      modifies this, regs, uid
      ensures Valid()
      ensures writes == old(writes) + [Transaction(MCP7940X_ADDRESS, 0, TimeBlock(dt))]
      ensures regs[..] == Written(old(regs[..]), 0, TimeBlock(dt))
      ensures uid[..] == old(uid[..])
    {
      var buffer := new byte[8];
      buffer[0] := Bin2Bcd(ToByte(dt.ss)) | 0x80;
      buffer[1] := Bin2Bcd(ToByte(dt.mm));
      buffer[2] := Bin2Bcd(ToByte(dt.hh));
      buffer[3] := Bin2Bcd(1 | 0x08);
      buffer[4] := Bin2Bcd(ToByte(dt.d));
      buffer[5] := Bin2Bcd(ToByte(dt.m));
      buffer[6] := Bin2Bcd(ToByte(dt.Year() - 2000));
      buffer[7] := 0;
      assert buffer[..8] == TimeBlock(dt);
      var n := WriteRegisterBlock(MCP7940X_ADDRESS, 0, buffer, 8);
    }

    /** `now`: the seven time bytes from register 0, decoded. */
    method Now() returns (dt: DateTime)
      requires Valid()
      ensures dt == DecodeTime(Block(regs[..], 0, 7))
    {
      var buffer := new byte[7];
      var n := ReadRegisterBlock(MCP7940X_ADDRESS, 0, buffer, 7);
      assert buffer[..] == buffer[..7];
      dt := DecodeTime(buffer[..]);
    }

    /** `GetPwrOn`: the power-up stamp at 0x1C..0x1F. */
    method GetPwrOn() returns (dt: DateTime)
      requires Valid()
      ensures dt == DecodeStamp(Block(regs[..], 0x1C, 4))
      ensures dt.ss == 0 && dt.yOff == 0
    {
      var buffer := new byte[4];
      var n := ReadRegisterBlock(MCP7940X_ADDRESS, 0x1C, buffer, 4);
      assert buffer[..] == buffer[..4];
      dt := DecodeStamp(buffer[..]);
    }

    /** `GetPwrFail`: the power-down stamp at 0x18..0x1B. */
    method GetPwrFail() returns (dt: DateTime)
      requires Valid()
      ensures dt == DecodeStamp(Block(regs[..], 0x18, 4))
      ensures dt.ss == 0 && dt.yOff == 0
    {
      var buffer := new byte[4];
      var n := ReadRegisterBlock(MCP7940X_ADDRESS, 0x18, buffer, 4);
      assert buffer[..] == buffer[..4];
      dt := DecodeStamp(buffer[..]);
    }

    /** `ClearPowerFail`: read the weekday register, clear bit 4, write it
        back. */
    method ClearPowerFail()
      requires Valid()
      modifies this, regs, uid
      ensures Valid()
      ensures regs[..] == old(regs[..])[MCP7940X_OSC_BAT := old(regs[MCP7940X_OSC_BAT]) & 0xEF]
      ensures uid[..] == old(uid[..])
      ensures writes == old(writes) + [Transaction(MCP7940X_ADDRESS, MCP7940X_OSC_BAT, [old(regs[MCP7940X_OSC_BAT]) & 0xEF])]
    {
      var dayfield := ReadRegister(MCP7940X_ADDRESS, MCP7940X_OSC_BAT);
      dayfield := dayfield & 0xEF;
      WriteRegister(MCP7940X_ADDRESS, MCP7940X_OSC_BAT, dayfield);
    }

    /** `WriteSRAM`: the count clamped as written, then one write from
        `0x20 + Index` (a `uint8_t` argument). The clamp can make the count
        larger than the caller's buffer; the bytes sent then run on into
        whatever memory follows it, given here as `beyond`. */
    method WriteSram(buffer: array<byte>, beyond: seq<byte>, index: uint8, count: uint8)
      requires Valid() && buffer != regs && buffer != uid
      requires SramWriteCount(index, count) <= buffer.Length + |beyond|
      modifies this, regs, uid
      ensures Valid()
      ensures regs[..] == Written(old(regs[..]), ToUint8(SRAM_START + index), (buffer[..] + beyond)[..SramWriteCount(index, count)])
      ensures uid[..] == old(uid[..])
      ensures writes == old(writes) + [Transaction(MCP7940X_ADDRESS, ToUint8(SRAM_START + index), (buffer[..] + beyond)[..SramWriteCount(index, count)])]
    {
      var c := count;
      if SRAM_START + index + count > SRAM_LIMIT {
        c := ToUint8(0x3F + index);
      }
      ghost var sent := buffer[..] + beyond;
      var source := new byte[c](i requires 0 <= i < c reads buffer =>
        if i < buffer.Length then buffer[i] else beyond[i - buffer.Length]);
      assert source[..c] == sent[..c];
      var n := WriteRegisterBlock(MCP7940X_ADDRESS, ToUint8(SRAM_START + index), source, c);
    }

    /** `WriteSRAM` with the clamp the guard means. */
    method WriteSramIntended(buffer: array<byte>, index: uint8, count: uint8)
      requires Valid() && buffer != regs && buffer != uid
      requires count <= buffer.Length
      modifies this, regs, uid
      ensures Valid()
      ensures regs[..] == Written(old(regs[..]), ToUint8(SRAM_START + index), buffer[..SramWriteCountIntended(index, count)])
      ensures uid[..] == old(uid[..])
      ensures writes == old(writes) + [Transaction(MCP7940X_ADDRESS, ToUint8(SRAM_START + index), buffer[..SramWriteCountIntended(index, count)])]
    {
      var c := count;
      if SRAM_START + index + count > SRAM_LIMIT {
        c := if index <= 0x3F then 0x3F - index else 0;
      }
      var n := WriteRegisterBlock(MCP7940X_ADDRESS, ToUint8(SRAM_START + index), buffer, c);
    }

    /** `ReadSRAM`: `Count` bytes from `0x20 + Index`, unclamped. */
    method ReadSram(buffer: array<byte>, index: uint8, count: uint8)
      requires Valid() && buffer != regs && buffer != uid && count <= buffer.Length
      modifies buffer
      ensures buffer[..count] == Block(regs[..], ToUint8(SRAM_START + index), count)
      ensures buffer[count..] == old(buffer[count..])
    {
      var n := ReadRegisterBlock(MCP7940X_ADDRESS, ToUint8(SRAM_START + index), buffer, count);
    }

    /** `getmac(MAC, Count, type)`: type 8 reads `Count` bytes of the EUI-64
        at 0xF0 from the ID device, type 6 reads the six bytes of the EUI-48
        at 0xF2 whatever `Count` is, any other type reads nothing. */
    method GetMac(mac: array<byte>, count: uint8, kind: uint8)
      requires Valid() && mac != regs && mac != uid
      requires kind == 8 ==> count <= mac.Length
      requires kind == 6 ==> 6 <= mac.Length
      modifies mac
      ensures kind == 8 ==> mac[..count] == Block(uid[..], 0xF0, count) && mac[count..] == old(mac[count..])
      ensures kind == 6 ==> mac[..6] == Block(uid[..], 0xF2, 6) && mac[6..] == old(mac[6..])
      ensures kind != 6 && kind != 8 ==> mac[..] == old(mac[..])
    {
      if kind == 8 {
        var n := ReadRegisterBlock(MCP7940X_MAC, 0xF0, mac, count);
      }
      if kind == 6 {
        var c: uint8 := 6;
        var n := ReadRegisterBlock(MCP7940X_MAC, 0xF2, mac, c);
      }
    }

    /** `setmac(MAC, Count)`: unlock (0x55, 0xAA to register 9), the ID
        block at 0xF0, lock again (0x55, 0xAA). All of it goes to the clock
        device at 0x6F. */
    method SetMac(mac: array<byte>, count: uint8)
      requires Valid() && mac != regs && mac != uid && count <= mac.Length
      modifies this, regs, uid
      ensures Valid()
      ensures writes == old(writes) + [
        Transaction(MCP7940X_ADDRESS, UNLOCK_REG, [0x55]),
        Transaction(MCP7940X_ADDRESS, UNLOCK_REG, [0xAA]),
        Transaction(MCP7940X_ADDRESS, 0xF0, mac[..count]),
        Transaction(MCP7940X_ADDRESS, UNLOCK_REG, [0x55]),
        Transaction(MCP7940X_ADDRESS, UNLOCK_REG, [0xAA])]
      ensures regs[..] == Written(old(regs[..]), 0xF0, mac[..count])[UNLOCK_REG := 0xAA]
      ensures uid[..] == old(uid[..])
    {
      ghost var r0 := regs[..];
      WriteRegister(MCP7940X_ADDRESS, UNLOCK_REG, 0x55);
      WriteRegister(MCP7940X_ADDRESS, UNLOCK_REG, 0xAA);
      ghost var r1 := regs[..];
      assert r1 == r0[UNLOCK_REG := 0x55][UNLOCK_REG := 0xAA];
      var n := WriteRegisterBlock(MCP7940X_ADDRESS, 0xF0, mac, count);
      WriteRegister(MCP7940X_ADDRESS, UNLOCK_REG, 0x55);
      WriteRegister(MCP7940X_ADDRESS, UNLOCK_REG, 0xAA);
      WrittenOverwrite(r0, UNLOCK_REG, 0xAA, 0xF0, mac[..count], 0xAA);
      assert r0[UNLOCK_REG := 0x55][UNLOCK_REG := 0xAA] == r0[UNLOCK_REG := 0xAA];
    }

    /** `SetSQW`: the control register gets the square-wave byte of the
        rate's low three bits. */
    method SetSqw(rate: byte)
      requires Valid()
      modifies this, regs, uid
      ensures Valid()
      ensures regs[..] == old(regs[..])[MCP7940X_CTRLREG := SqwControl(rate)]
      ensures uid[..] == old(uid[..])
      ensures writes == old(writes) + [Transaction(MCP7940X_ADDRESS, MCP7940X_CTRLREG, [SqwControl(rate)])]
    {
      var r := rate & 0x07;
      WriteRegister(MCP7940X_ADDRESS, MCP7940X_CTRLREG, r | MCP7940X_MFP_SQWE_ON | MCP7940X_MFP_LOGIC_HIGH);
    }
  }

  /** The six bytes of the EUI-48 are the last six of the eight EUI-64
      bytes: `getmac` of type 6 reads the tail of what type 8 reads. */
  lemma MacTail(id: seq<byte>)
    requires |id| == 256
    ensures Block(id, 0xF2, 6) == Block(id, 0xF0, 8)[2..]
  {
  }
}
