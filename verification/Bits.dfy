/**
 Facts about machine words: the UTF-8 forms of RFC 3629 byte by byte, and surrogates.
 */
module Bits {

  /** Storing an unsigned int in a json_char keeps its low byte. */
  function LowByte(u: bv32): bv8 {
    (u & 0xFF) as bv8
  }

  // The forms of section 4 of RFC 3629, and the bits that section 3 says they carry.

  predicate Form1(a: bv8) {
    a <= 0x7F
  }

  predicate Form2(a: bv8, b: bv8) {
    0xC2 <= a <= 0xDF && 0x80 <= b <= 0xBF
  }

  predicate Form3(a: bv8, b: bv8, c: bv8) {
    && (|| (a == 0xE0 && 0xA0 <= b <= 0xBF)
        || (0xE1 <= a <= 0xEC && 0x80 <= b <= 0xBF)
        || (a == 0xED && 0x80 <= b <= 0x9F)
        || (0xEE <= a <= 0xEF && 0x80 <= b <= 0xBF))
    && 0x80 <= c <= 0xBF
  }

  predicate Form4(a: bv8, b: bv8, c: bv8, d: bv8) {
    && (|| (a == 0xF0 && 0x90 <= b <= 0xBF)
        || (0xF1 <= a <= 0xF3 && 0x80 <= b <= 0xBF)
        || (a == 0xF4 && 0x80 <= b <= 0x8F))
    && 0x80 <= c <= 0xBF && 0x80 <= d <= 0xBF
  }

  function Carried1(a: bv8): bv32 {
    a as bv32
  }

  function Carried2(a: bv8, b: bv8): bv32 {
    ((a & 0x1F) as bv32 << 6) | (b & 0x3F) as bv32
  }

  function Carried3(a: bv8, b: bv8, c: bv8): bv32 {
    ((a & 0x0F) as bv32 << 12) | ((b & 0x3F) as bv32 << 6) | (c & 0x3F) as bv32
  }

  function Carried4(a: bv8, b: bv8, c: bv8, d: bv8): bv32 {
    ((a & 0x07) as bv32 << 18) | ((b & 0x3F) as bv32 << 12) | ((c & 0x3F) as bv32 << 6) | (d & 0x3F) as bv32
  }

  lemma OneByte(u: bv32)
    requires u <= 0x7F
    ensures var a := LowByte(u); Form1(a) && Carried1(a) == u
  {
  }

  lemma TwoBytes(u: bv32)
    requires 0x80 <= u <= 0x7FF
    ensures var a, b := LowByte(0xC0 | (u >> 6)), LowByte(0x80 | (u & 0x3F));
            Form2(a, b) && Carried2(a, b) == u
  {
  }

  lemma ThreeBytes(u: bv32)
    requires 0x800 <= u <= 0xFFFF && !(0xD800 <= u <= 0xDFFF)
    ensures var a, b, c := LowByte(0xE0 | (u >> 12)), LowByte(0x80 | ((u >> 6) & 0x3F)), LowByte(0x80 | (u & 0x3F));
            Form3(a, b, c) && Carried3(a, b, c) == u
  {
  }

  lemma FourBytes(u: bv32)
    requires 0x10000 <= u <= 0x10FFFF
    ensures var a, b := LowByte(0xF0 | (u >> 18)), LowByte(0x80 | ((u >> 12) & 0x3F));
            var c, d := LowByte(0x80 | ((u >> 6) & 0x3F)), LowByte(0x80 | (u & 0x3F));
            Form4(a, b, c, d) && Carried4(a, b, c, d) == u
  {
  }

  lemma HexBits(b1: bv32, b2: bv32, b3: bv32, b4: bv32)
    requires b1 <= 0xF && b2 <= 0xF && b3 <= 0xF && b4 <= 0xF
    ensures (((b1 << 4) | b2) << 8) | ((b3 << 4) | b4) <= 0xFFFF
  {
  }

  lemma PairBits(hi: bv32, lo: bv32)
    requires 0xD800 <= hi <= 0xDBFF && 0xDC00 <= lo <= 0xDFFF
    ensures 0x010000 | ((hi & 0x3FF) << 10) | (lo & 0x3FF) == 0x10000 + ((hi - 0xD800) << 10) + (lo - 0xDC00)
            <==> hi & 0x40 == 0
  {
  }

  /** Both ways to join a pair stay above the basic plane and below the end of the code space. */
  lemma PairRange(hi: bv32, lo: bv32)
    requires 0xD800 <= hi <= 0xDBFF && 0xDC00 <= lo <= 0xDFFF
    ensures 0x10000 <= 0x010000 | ((hi & 0x3FF) << 10) | (lo & 0x3FF) <= 0x10FFFF
    ensures 0x10000 <= 0x10000 + ((hi - 0xD800) << 10) + (lo - 0xDC00) <= 0x10FFFF
  {
  }
}
