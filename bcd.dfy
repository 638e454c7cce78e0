/** The binary-coded-decimal helpers of `RTC_MCP7940X` (MCP7940x.h): every
    time and date register of the chip holds its value as two decimal digits,
    one per nibble. The C bodies compute on `uint8_t`, so the arithmetic below
    is on `bv8` and wraps exactly as the stores in C do. */
module Bcd {
  import opened CTypes

  /** A byte whose two nibbles are decimal digits. */
  predicate IsBcd(b: byte) {
    b >> 4 <= 9 && b & 0x0F <= 9
  }

  /** `bin2bcd`: adds six for every completed ten. */
  function Bin2Bcd(val: byte): (r: byte)
    ensures val <= 99 ==> IsBcd(r) && r <= 0x99
    ensures val <= 99 ==> r as int == 16 * (val as int / 10) + val as int % 10
  {
    val + 6 * (val / 10)
  }

  /** `bcd2bin`: takes six away for every unit of the high nibble. */
  function Bcd2Bin(val: byte): (r: byte)
    ensures IsBcd(val) ==> r <= 99
    ensures r as int == 10 * (val as int / 16) + val as int % 16
  {
    var hi := val >> 4;
    assert hi as int == val as int / 16;
    assert (6 * hi) as int == 6 * (hi as int);
    val - 6 * hi
  }

  /** Decimal to BCD and back gives the value again exactly when its tens
      digit still fits in the high nibble; above 159 the wrap of `bin2bcd`
      loses it. In particular every value 0..99 survives. */
  lemma Bin2BcdRoundTrip(v: byte)
    ensures Bcd2Bin(Bin2Bcd(v)) == v <==> v < 160
  {
  }

  /** BCD to decimal and back gives every well-formed BCD byte again. */
  lemma Bcd2BinRoundTrip(b: byte)
    requires IsBcd(b)
    ensures Bin2Bcd(Bcd2Bin(b)) == b
  {
  }

  /** The two nibbles of `bin2bcd(v)` are the tens and the units of v. */
  lemma Bin2BcdDigits(v: byte)
    requires v <= 99
    ensures Bin2Bcd(v) >> 4 == v / 10 && Bin2Bcd(v) & 0x0F == v % 10
  {
  }
}
