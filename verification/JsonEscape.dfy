/**
 String escapes of the parser: hex digits, \u escapes, surrogate pairs and the UTF-8
 bytes they leave in the string.
 */
module JsonEscape {
  import opened CText
  import opened Bits

  const BAD_HEX: bv32 := 0xFF

  function HexValue(c: char): bv32 {
    match c
    case '0' => 0
    case '1' => 1
    case '2' => 2
    case '3' => 3
    case '4' => 4
    case '5' => 5
    case '6' => 6
    case '7' => 7
    case '8' => 8
    case '9' => 9
    case 'a' => 0x0A
    case 'A' => 0x0A
    case 'b' => 0x0B
    case 'B' => 0x0B
    case 'c' => 0x0C
    case 'C' => 0x0C
    case 'd' => 0x0D
    case 'D' => 0x0D
    case 'e' => 0x0E
    case 'E' => 0x0E
    case 'f' => 0x0F
    case 'F' => 0x0F
    case _ => BAD_HEX
  }

  /** The number with these four hex digits. */
  function Pack(b1: bv32, b2: bv32, b3: bv32, b4: bv32): bv32 {
    (((b1 << 4) | b2) << 8) | ((b3 << 4) | b4)
  }

  /** The four hex digits that follow position `p`, if they are hex digits. */
  function FourHex(t: string, p: nat): Option<bv32>
    requires p + 4 <= |t|
  {
    var b1, b2, b3, b4 := HexValue(At(t, p + 1)), HexValue(At(t, p + 2)), HexValue(At(t, p + 3)),
        HexValue(At(t, p + 4));
    if b1 == BAD_HEX || b2 == BAD_HEX || b3 == BAD_HEX || b4 == BAD_HEX then None
    else Some(Pack(b1, b2, b3, b4))
  }

  predicate IsSurrogate(u: bv32) {
    u & 0xF800 == 0xD800
  }

  /** How two \u escapes are joined. */
  function Combine(hi: bv32, lo: bv32): bv32 {
    0x010000 | ((hi & 0x3FF) << 10) | (lo & 0x3FF)
  }

  /** The bytes the second pass writes for a code point. */
  function Encode(u: bv32): seq<bv8> {
    if u <= 0x7F then [LowByte(u)]
    else if u <= 0x7FF then [LowByte(0xC0 | (u >> 6)), LowByte(0x80 | (u & 0x3F))]
    else if u <= 0xFFFF then
      [LowByte(0xE0 | (u >> 12)), LowByte(0x80 | ((u >> 6) & 0x3F)), LowByte(0x80 | (u & 0x3F))]
    else
      [LowByte(0xF0 | (u >> 18)), LowByte(0x80 | ((u >> 12) & 0x3F)),
       LowByte(0x80 | ((u >> 6) & 0x3F)), LowByte(0x80 | (u & 0x3F))]
  }

  /** The number of bytes the first pass adds to string_length for a code point. */
  function Count(u: bv32): nat {
    if u <= 0x7F then 1 else if u <= 0x7FF then 2 else if u <= 0xFFFF then 3 else 4
  }

  function Chars(bs: seq<bv8>): (r: string)
    ensures |r| == |bs|
  {
    seq(|bs|, i requires 0 <= i < |bs| => bs[i] as int as char)
  }

  /** What an escape contributes: its bytes, the length the first pass counts, the next position. */
  datatype Esc = Esc(out: string, count: nat, next: nat)

  function Unicode(t: string, p: nat): (r: Option<Esc>)
    requires p < |t|
    ensures r.Some? ==> p < r.value.next <= |t|
  {
    if |t| - p < 4 || FourHex(t, p).None? then None
    else
      var u := FourHex(t, p).value;
      if !IsSurrogate(u) then Some(Esc(Chars(Encode(u)), Count(u), p + 5))
      else if |t| - (p + 4) < 6 || At(t, p + 5) != '\\' || At(t, p + 6) != 'u' || FourHex(t, p + 6).None? then None
      else
        var w := Combine(u, FourHex(t, p + 6).value);
        Some(Esc(Chars(Encode(w)), Count(w), p + 11))
  }

  /** The escape whose letter is at `p`, the byte after the backslash. */
  function Escape(t: string, p: nat): (r: Option<Esc>)
    requires p < |t|
    ensures r.Some? ==> p < r.value.next <= |t|
  {
    match At(t, p)
    case 'b' => Some(Esc(['\U{0008}'], 1, p + 1))
    case 'f' => Some(Esc(['\U{000C}'], 1, p + 1))
    case 'n' => Some(Esc(['\n'], 1, p + 1))
    case 'r' => Some(Esc(['\r'], 1, p + 1))
    case 't' => Some(Esc(['\t'], 1, p + 1))
    case 'u' => Unicode(t, p)
    case c => Some(Esc([c], 1, p + 1))
  }

  /** The first pass predicts the number of bytes that the second pass writes. */
  lemma EscapeCount(t: string, p: nat)
    requires p < |t|
    ensures Escape(t, p).Some? ==> |Escape(t, p).value.out| == Escape(t, p).value.count
  {
  }
}
