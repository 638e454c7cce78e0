# MCP7940x real-time clock driver, modelled in Dafny

The MCP7940x library is an Arduino driver for the Microchip MCP7940x
battery-backed real-time clock. This project models its core and proves
properties of that model. The core has three parts:

- **`DateTime`** is a timestamp held as six `uint8_t` fields: year offset
  from 2000, month, day, hour, minute and second.
  - It converts to seconds since 2000-01-01 00:00:00 (`date2days`,
    `time2long`, `get()`).
  - It converts back from seconds: the `DateTime(long)` constructor divides,
    then runs a year loop and a month loop.
  - It has a component constructor, a parser of the compiler's
    `__DATE__`/`__TIME__` build stamp, and `dayOfWeek()`.
- **The BCD helpers** `bin2bcd` and `bcd2bin`. The chip keeps every time
  field as two decimal digits, one per nibble.
- **The driver `RTC_MCP7940X`** lays fields out in the chip's registers and
  reads them back:
  - `adjust` and `now` for the current time;
  - the power-up and power-down stamps, and clearing the power-fail flag;
  - the SRAM window;
  - the unique-ID (MAC) block;
  - the square-wave output control byte.

The target is AVR, where `long` is 32 bits and `int` is 16 bits. `uint8_t`
arithmetic is `bv8` in `Bcd` and in the register bytes, so it wraps exactly
as the C stores do. Elsewhere the fields are integers `0..255`, and every C
truncation is written out in module `CTypes`:

| C operation | model |
|---|---|
| store into `uint8_t` | `ToUint8` / `ToByte` |
| store into `uint16_t` | `ToUint16` |
| 32-bit `long` wrap | `ToInt32` |
| `/` and `%` rounding toward zero | `CDiv` / `CRem` |

The chip answers at two I2C bus addresses. The class `Rtc.Rtc` models each as
a 256-byte array:

- `regs` is the clock at 0x6F;
- `uid` is the unique-ID EEPROM at 0x57.

A block transfer starts at a register offset and moves on by one per byte. The
model wraps that register address at 256. Every write transaction is appended to the
trace `writes`, so the order of the five `setmac` transactions is visible.

Some operations are specified by a function or a method, and their
properties are proved as lemmas:

- **seconds → fields → seconds** is exact for every `t` in `0 .. 2^31-1`
  (`Calendar.SecondsRoundTrip`).
- **fields → seconds → fields** is exact for every valid timestamp up to
  2068-01-19 03:14:07 (`Calendar.FieldsRoundTrip`).
- **`adjust` then `now`** gives the timestamp back exactly when its fields
  survive the BCD layout and masks, which includes every valid timestamp
  (`Rtc.DecodeTimeBlock`, `Rtc.NowAfterAdjust`).
- **build stamp → `DateTime`** gives back every timestamp of 2000..2099
  (`BuildStamp.BuildStampRoundTrip`).

The model follows the code for the SRAM clamp:

- `WriteSRAM` uses `(0x3F + Index) mod 256`.
- For index 20 and count 50 that is 83 (0x53).
- The write then ends at register 0x86. That takes the Wire library's
  32-byte buffer limit as absent, and takes the register address to move on
  by one per byte, modulo 256, as the model does.
- The count of 83, and the out-of-bounds read of 33 bytes past a 50-byte
  buffer, hold either way. Under the Wire limit, what is sent is cut to
  31 bytes.
- The guard treats 0x5F as outside the window: a write that keeps the count
  never reaches register 0x5F (`Rtc.SramGuardBound`).

`setmac` issues the same two-byte sequence (0x55, 0xAA to register 9) to
unlock and to re-lock. The chip's own lock sequence may differ. The model
records the sequence as the code issues it and claims nothing about locking.

Files: `ctypes.dfy`, `bcd.dfy`, `calendar.dfy`, `buildstamp.dfy`,
`registers.dfy`.

## Model

| member | source | states |
|---|---|---|
| Bcd.Bin2Bcd | MCP7940x.h:147 | for v ≤ 99 both nibbles of the result are decimal digits, the result is ≤ 0x99, and it equals 16·(v/10) + v%10 |
| Bcd.Bcd2Bin | MCP7940x.h:146 | the result is 10·(high nibble) + low nibble, and it is ≤ 99 for every well-formed BCD byte |
| Bcd.Bin2BcdRoundTrip | MCP7940x.h:146-147 | bcd2bin(bin2bcd(v)) == v exactly when v < 160, so for every v in 0..99 |
| Bcd.Bcd2BinRoundTrip | MCP7940x.h:146-147 | bin2bcd(bcd2bin(b)) == b for every byte whose nibbles are both ≤ 9 |
| Bcd.Bin2BcdDigits | MCP7940x.h:147 | for v ≤ 99 the high nibble of bin2bcd(v) is the tens digit and the low nibble the units digit |
| Calendar.DateTime.Year | MCP7940x.h:101 | `year()` is 2000 + yOff, between 2000 and 2255 |
| Calendar.MonthLength | MCP7940x.cpp:47-49 | a month has 28..31 days; February has 29 exactly in a leap year; no other month has fewer than 30 |
| Calendar.MonthsFillTheYear | MCP7940x.cpp:9 | the twelve month lengths of the table, plus the leap day, sum to the length of the year |
| Calendar.DaysInYearsClosedForm | MCP7940x.cpp:20 | the closed form 365·y + (y+3)/4 of `date2days` equals the days of y whole years counted one by one |
| Calendar.SplitYears | MCP7940x.cpp:40-45 | the year loop leaves a year offset and a day of that year that add back to the day count, with the day inside the year |
| Calendar.SplitMonths | MCP7940x.cpp:46-53 | the month loop leaves a month 1..12 and a day inside that month that add back to the day of the year |
| Calendar.DaysToDate | MCP7940x.cpp:38-54 | a day count becomes a month 1..12 and a day inside it whose day number is the count again |
| Calendar.SecondsToDateTime | MCP7940x.cpp:32-55 | `DateTime(long t)` always gives a month 1..12 and a day inside that month; for t ≥ 0 the timestamp is valid and its second, minute and hour are the remainders of t |
| Calendar.FromSeconds | MCP7940x.cpp:32-55 | `DateTime(long t)` computes the fields of t; for t ≥ 0 they form a valid timestamp whose `get()` is t |
| Calendar.DayNumber | MCP7940x.cpp:12-21 | `date2days` gives a full year 2000..3999 the same day number as its offset from 2000 |
| Calendar.Date2Days | MCP7940x.cpp:12-21 | the loop of `date2days` returns the day number: day, month lengths before the month, leap day and whole years, in 16 bits |
| Calendar.DayNumberCounts | MCP7940x.cpp:12-21 | for a valid date the day number is the count of days from 2000-01-01, through whole years and whole months |
| Calendar.FirstDayNumber | MCP7940x.cpp:20 | `date2days(2000, 1, 1)` is 0 |
| Calendar.Time2Long | MCP7940x.cpp:23-25 | `time2long` does not wrap where the seconds fit a `long` |
| Calendar.Get | MCP7940x.cpp:103-106 | `get()` of a valid timestamp before 2068 is non-negative: the 32-bit `long` does not wrap there |
| Calendar.Time2LongDay | MCP7940x.h:89 | `SECONDS_PER_DAY` is 24·60·60, and one more day in `time2long` is `SECONDS_PER_DAY` more seconds |
| Calendar.DayOfWeek | MCP7940x.cpp:98-101 | `dayOfWeek()` is below 7 |
| Calendar.FromComponents | MCP7940x.cpp:57-66 | a year 2000..2255 is stored as year − 2000 and one below 256 unchanged; the other fields are stored as given |
| Calendar.FromDate | MCP7940x.h:97-98 | with the defaults, hour, minute and second are 0, and month, day and year are as given |
| Calendar.SplitSeconds | MCP7940x.cpp:33-38 | division by 60, 60 and 24 splits a non-negative count into days and a time of day that give the count back |
| Calendar.SplitSecondsUnique | MCP7940x.cpp:33-38 | seconds made of days and a valid time of day split back into the same days and time |
| Calendar.DaysToDateUnique | MCP7940x.cpp:40-54 | the year and month loops applied to the day number of a date give that date back |
| Calendar.GetExact | MCP7940x.cpp:103-106 | for a valid timestamp `get()` is the exact seconds count, wrapped to 32 bits, and below 2^32 |
| Calendar.SecondsRoundTrip | MCP7940x.cpp:32-55 | for every 0 ≤ t ≤ 2^31−1, `DateTime(t)` is valid and `DateTime(t).get() == t` |
| Calendar.FieldsRoundTrip | MCP7940x.cpp:103-106 | every valid timestamp with non-negative `get()` comes back from `DateTime(get())` |
| Calendar.DayOfWeekOfSeconds | MCP7940x.cpp:98-101 | for non-negative seconds the 16-bit weekday arithmetic does not wrap: it is (days + 6) mod 7 |
| Calendar.EpochSeconds | MCP7940x.cpp:57-66 | 2000-01-01 00:00:00 from the component constructor is year offset 0 and 0 seconds |
| Calendar.EpochWeekday | MCP7940x.cpp:100 | `dayOfWeek()` of 2000-01-01 is 6 (Saturday) |
| Calendar.SecondDay | MCP7940x.cpp:98-101 | 2000-01-02 is weekday 0 (Sunday) |
| Calendar.Epoch | MCP7940x.h:96 | `DateTime(0)`, the default, is 2000-01-01 00:00:00 |
| Calendar.DayOfWeekNextDay | MCP7940x.cpp:98-101 | of two timestamps one `SECONDS_PER_DAY` apart, the later is on the next weekday mod 7 |
| Calendar.DayOfWeekAdvances | MCP7940x.cpp:98-101 | `DateTime(t + 86400).dayOfWeek()` is `DateTime(t).dayOfWeek()` + 1 mod 7 |
| Calendar.LeapDay2000 | MCP7940x.cpp:18-19 | 2000-02-29 is valid, and 2000-03-01 is one day after it |
| Calendar.Sample2009 | MCP7940x.cpp:79 | 2009-12-26 12:34:56 is 315146096 seconds, a Saturday |
| Calendar.LastRepresentableSeconds | MCP7940x.cpp:23-25 | 2068-01-19 03:14:07 is 2^31−1 seconds; one second later `get()` wraps to −2^31 |
| Calendar.LastRepresentable | MCP7940x.cpp:32-55 | `DateTime(2^31−1)` is 2068-01-19 03:14:07 |
| BuildStamp.Conv2d | MCP7940x.cpp:68-73 | two digits read as their decimal value; a non-digit tens character counts as 0 and the units digit is kept, mod 256 |
| BuildStamp.MonthFromName | MCP7940x.cpp:82-91 | a month is set exactly when the first letter is one the switch knows, and it is then 1..12 |
| BuildStamp.FromBuildStamp | MCP7940x.cpp:78-96 | the year offset, day, hour, minute and second come from fixed positions; the month comes from the name, or stays unset |
| BuildStamp.Conv2dTwoDigits | MCP7940x.cpp:68-73 | `conv2d` reads back every 0..99 written with two digits |
| BuildStamp.Conv2dDayField | MCP7940x.cpp:68-73 | `conv2d` reads back every day written with a leading space, as `__DATE__` writes it |
| BuildStamp.MonthNamesDecode | MCP7940x.cpp:81-91 | each of Jan..Dec gives its month number 1..12 |
| BuildStamp.BuildStampRoundTrip | MCP7940x.cpp:78-96 | the stamp of any valid timestamp parses back to that timestamp, whatever the unset month held |
| BuildStamp.SampleStamp | MCP7940x.cpp:79 | "Dec 26 2009", "12:34:56" gives yOff 9, month 12, day 26, 12:34:56 |
| Rtc.ReadAfterWrite | MCP7940x.cpp:322-337 | a block read at the place of a block write returns the bytes written |
| Rtc.WriteFrame | MCP7940x.cpp:322-337 | a block write leaves every register outside its bytes unchanged |
| Rtc.WrittenSingle | MCP7940x.cpp:310-312 | a one-byte write is a single register update |
| Rtc.TimeBlock | MCP7940x.cpp:113-122 | `adjust` sets bit 7 of byte 0 and writes 0x09 as byte 3 and 0 as byte 7 |
| Rtc.DecodeTime | MCP7940x.cpp:132-139 | the year `now` returns is 2000 + the BCD year register |
| Rtc.DecodeTimeIgnoresFlags | MCP7940x.cpp:132-137 | `now` ignores the weekday register, bit 7 of the seconds and bits 5-7 of the month |
| Rtc.FieldRoundTrip | MCP7940x.h:146-147 | a `uint8_t` field goes through `bin2bcd` and `bcd2bin` exactly when it is below 160 |
| Rtc.SecondsFieldRoundTrip | MCP7940x.cpp:115 | the seconds survive setting bit 7, the 0x7F mask and BCD exactly when below 80 |
| Rtc.MonthRoundTrip | MCP7940x.cpp:136 | the month survives BCD and the 0x1F mask exactly when below 20 |
| Rtc.DecodeYearField | MCP7940x.cpp:121 | `now` returns the year offset `adjust` wrote exactly when it is below 160 |
| Rtc.DecodeMonthField | MCP7940x.cpp:120 | `now` returns the month `adjust` wrote exactly when it is below 20 |
| Rtc.DecodeDayField | MCP7940x.cpp:119 | `now` returns the day `adjust` wrote exactly when it is below 160 |
| Rtc.DecodeHourField | MCP7940x.cpp:117 | `now` returns the hour `adjust` wrote exactly when it is below 160 |
| Rtc.DecodeMinuteField | MCP7940x.cpp:116 | `now` returns the minute `adjust` wrote exactly when it is below 160 |
| Rtc.DecodeSecondField | MCP7940x.cpp:115 | `now` returns the second `adjust` wrote exactly when it is below 80 |
| Rtc.DecodeTimeBlock | MCP7940x.cpp:112-140 | decoding the bytes of `adjust` gives the timestamp back exactly when its fields survive the layout, and always for a valid one |
| Rtc.NowAfterAdjust | MCP7940x.cpp:112-140 | after `adjust`, the seven bytes `now` reads decode to the timestamp exactly when it survives the layout, whatever the registers held |
| Rtc.DecodeStamp | MCP7940x.cpp:147-153 | a power stamp always reads with second 0 and year 2000 |
| Rtc.DecodeStampBlock | MCP7940x.cpp:148-151 | a stamp of a valid timestamp reads back with its minute, hour, day and month, whatever weekday bits 5-7 hold |
| Rtc.StampMonthMask | MCP7940x.cpp:151 | the 0x1F mask removes the weekday bits 5-7 from a stamp's month byte |
| Rtc.ClearFlagBit | MCP7940x.cpp:173 | `&= 0xEF` clears bit 4 and keeps every other bit |
| Rtc.SqwControl | MCP7940x.cpp:239-240 | the control byte carries the rate's low three bits, square wave on and logic high, and nothing in bits 3-5 |
| Rtc.SqwRateCodes | MCP7940x.h:68-72 | the rate codes 0x00..0x04 pass the 0x07 mask, so the control byte is 0xC0 plus the rate code |
| Rtc.SramWriteCount | MCP7940x.cpp:178-180 | the count is kept when the write fits below 0x5F, and is otherwise (0x3F + Index) mod 256 |
| Rtc.SramWriteCountOverruns | MCP7940x.cpp:178-181 | for an index 1..0xC0, a write that runs past 0x5F still runs past it after the clamp |
| Rtc.SramWriteCountExample | MCP7940x.cpp:179 | index 20, count 50: the count becomes 83 and the write ends at register 0x86 |
| Rtc.SramGuardBound | MCP7940x.cpp:178-180 | a write the guard lets through keeps its count and its last register is below 0x5F; with the corrected clamp register 0x5F is never written either |
| Rtc.SramWriteCountIntended | MCP7940x.cpp:178-180 | the corrected clamp never grows the count and cuts an overrunning write so that it stops before 0x5F (last register 0x5E, the exclusive bound the guard uses) |
| Rtc.Rtc.ReadRegisterBlock | MCP7940x.cpp:263-282 | `count` bytes from `offset` of the addressed device land in `data`; the rest of `data` is unchanged; the result is `count` |
| Rtc.Rtc.WriteRegisterBlock | MCP7940x.cpp:322-337 | the addressed device gets `data[..count]` from `offset` on, the other device is unchanged, the transaction is appended, the result is `count` |
| Rtc.Rtc.ReadRegister | MCP7940x.cpp:247-251 | the value of one register |
| Rtc.Rtc.WriteRegister | MCP7940x.cpp:310-312 | one register is updated and one one-byte transaction is appended |
| Rtc.Rtc.Adjust | MCP7940x.cpp:112-125 | one transaction of the eight time bytes at register 0; the clock registers are updated with them |
| Rtc.Rtc.Now | MCP7940x.cpp:127-140 | the decode of the seven bytes from register 0 |
| Rtc.Rtc.GetPwrOn | MCP7940x.cpp:142-154 | the decode of the four bytes at 0x1C, with second 0 and year 2000 |
| Rtc.Rtc.GetPwrFail | MCP7940x.cpp:156-168 | the decode of the four bytes at 0x18, with second 0 and year 2000 |
| Rtc.Rtc.ClearPowerFail | MCP7940x.cpp:170-175 | register 0x03 becomes its old value & 0xEF, nothing else changes, and one write is traced |
| Rtc.Rtc.WriteSram | MCP7940x.cpp:177-182 | one write at 0x20 + Index (mod 256) of as many bytes as the as-written clamp gives, taken from the buffer and, past its end, from the memory that follows it |
| Rtc.Rtc.WriteSramIntended | MCP7940x.cpp:177-182 | the same write with the corrected clamp |
| Rtc.Rtc.ReadSram | MCP7940x.cpp:184-186 | `Count` bytes from 0x20 + Index (mod 256), unclamped |
| Rtc.Rtc.GetMac | MCP7940x.cpp:229-236 | type 8 reads `Count` bytes at 0xF0 of the ID device; type 6 reads 6 bytes at 0xF2 whatever `Count` is; any other type reads nothing |
| Rtc.Rtc.SetMac | MCP7940x.cpp:192-206 | the trace is unlock 0x55, 0xAA to register 9, the block at 0xF0, then 0x55, 0xAA again, all at 0x6F; the clock registers end as the block write with register 9 at 0xAA |
| Rtc.Rtc.SetSqw | MCP7940x.cpp:238-241 | register 0x07 gets the square-wave control byte of the rate; nothing else changes |
| Rtc.MacTail | MCP7940x.cpp:229-235 | the six bytes of type 6 are the last six of the eight bytes of type 8 |

## Left out

- The I2C bus itself:
  - the `Wire` library, `I2CWRITE`/`I2CREAD`, and the `Wire.endTransmission(RS)` repeated-start flag;
  - the one-second `millis()` timeout of `readRegisterBlock` and its partial reads.
  - The model moves every requested byte, so the block functions return `count`.
- Wire buffer size: the Wire library's 32-byte buffer does not appear, so long SRAM and ID transfers are not cut short.
- Register address wrap: the chip's own wrap-around rules are not modelled. The model moves the register address on modulo 256.
- `delay(5)` in `setmac`: hardware timing.
- `PROGMEM`/`pgm_read_byte`: `daysInMonth` is a plain constant sequence.
- The `#ifdef MCP79402` variant and its overloads:
  - `getmac(MAC)`, `getmac6` and `getmac(MAC, Count)` only choose the type 6 or 8;
  - that type is the `kind` parameter of `Rtc.Rtc.GetMac`.
- `setmac(MAC)`: the same as `setmac(MAC, 6)`.
- `readByteInRam`, `readBytesInRam`, `writeByteInRam`, `writeBytesInRam`: they are declared in MCP7940x.h but have no definition in the source.
- The alarm and calibration register constants: configuration data with no logic.
- `readRegisterBlockW`/`writeRegisterBlockW`: the 16-bit-offset variants are not used by the driver. The `RS` overloads are not modelled either.
- The return value of the four-argument `writeRegisterBlock` (MCP7940x.cpp:318-320):
  - that function has no `return` statement, so its result is undefined in C;
  - no caller uses it;
  - the model returns `count`, as the five-argument form does.
- Rtc.Rtc.GetMac: for type 6 it requires a buffer of at least 6 bytes. With a smaller buffer the source writes past the end of `MAC` (MCP7940x.cpp:233-234), and the model does not capture memory past an array. For type 8 it likewise requires `Count` bytes of buffer.
- Rtc.Rtc.WriteSram: the memory past the caller's buffer that an overrunning clamp reads, and with no Wire buffer limit sends to the chip, is the parameter `beyond`. The model does not say what that memory holds.
- Unique-ID device: `setmac` writes the ID block to the clock device (0x6F) at 0xF0, while `getmac` reads the ID device (0x57). The model does not relate them, and no round trip is claimed.
- Chip behaviour behind the registers is not modelled: the oscillator, the battery switch-over, how the chip records the power stamps, and whether the unlock sequence unlocks anything.
- Characters: a build-stamp character is its character code. The signedness of `char` matters only for non-ASCII text, which `__DATE__` and `__TIME__` never contain.
- The unknown month: for an unknown first letter, `DateTime(const char*, const char*)` leaves the month uninitialised. The model takes that value as the parameter `unsetMonth`.
- Calendar.Get: requires a month ≤ 13. For larger months `date2days` reads past the twelve-entry table, which is undefined in C. The same bound is on `DayNumber`, `Date2Days` and `DayOfWeek`.
- Calendar.SecondsToDateTime: for negative `t` the fields are what the C operators give. Only the month and day are claimed to be in range; the year, hour, minute and second are not.
- Calendar.IsLeap: every fourth year is a leap year, as the code has it, which is right for 2000..2099 only.
- Rtc.Rtc.Now: the C code has the 8-bit BCD year plus 2000 stored in a `uint16_t`. It never exceeds 2255, so no wrap is modelled there.

## Findings

| source | as written | input that shows it | evidently intended | confidence | as-written member | corrected member |
|---|---|---|---|---|---|---|
| MCP7940x.cpp:179 | `WriteSRAM` clamps an overrunning write to `Count = 0x3F + Index` | Index 20, Count 50: the count becomes 83 instead of 43, and the write ends at register 0x86, past the SRAM window end 0x5F | `Count = 0x3F - Index`, so that the write stops before 0x5F (last register 0x5E, the exclusive bound the guard uses) | not executed | Rtc.SramWriteCountOverruns | Rtc.SramWriteCountIntended |

