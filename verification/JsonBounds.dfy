/**
 Bounds that hold for every input, well-formed or not: how often the loop of a pass turns
 and how often one byte is looked at; and what \u escapes leave in a string.
 */
module JsonBounds {
  import opened CText
  import opened JsonEscape
  import opened JsonMachine
  import opened JsonNumbers
  import opened JsonReference
  import opened Bits
  import JsonParser
  import JsonPassOne
  import JsonPassTwo

  // ---- iterations

  /** The number of turns of the loop from state `s` on. */
  function Turns(t: string, first: bool, s: State): nat
    decreases Measure(t, s)
  {
    var o := Step(t, first, s);
    if o.Running? then
      StepDecreases(t, first, s);
      1 + Turns(t, first, o.s)
    else 1
  }

  lemma {:induction false} TurnsBound(t: string, first: bool, s: State)
    ensures Turns(t, first, s) <= Measure(t, s) + 1
    decreases Measure(t, s)
  {
    hide Step;
    StepDecreases(t, first, s);
    var o := Step(t, first, s);
    if o.Running? {
      TurnsBound(t, first, o.s);
    }
  }

  /** Each pass over any text ends, in at most two turns for each byte and for the terminator. */
  lemma PassBound(t: string, first: bool, s: State)
    requires s.p == 0
    ensures Turns(t, first, s) <= 2 * (|t| + 1) + 1
    ensures !Run(t, first, s).Running?
  {
    hide Step, Turns;
    TurnsBound(t, first, s);
    JsonParser.RunEnds(t, first, s);
  }

  /** The state after k turns of the loop, if it turns that often. */
  function AfterTurns(t: string, first: bool, s: State, k: nat): Option<State>
    decreases k
  {
    if k == 0 then Some(s)
    else
      var o := Step(t, first, s);
      if o.Running? then AfterTurns(t, first, o.s, k - 1) else None
  }

  lemma {:induction false} StaysInside(t: string, first: bool, s: State, k: nat)
    requires !Run(t, first, s).Crash?
    ensures var z := AfterTurns(t, first, s, k); z.Some? ==> z.value.p <= |t|
    decreases k
  {
    hide Run, Step;
    RunStep(t, first, s);
    if k == 0 {
      JsonParser.StepInside(t, first, s);
    } else if Step(t, first, s).Running? {
      StaysInside(t, first, Step(t, first, s).s, k - 1);
    }
  }

  /** In both passes, on every text, every turn of the loop looks at a byte of the text or at its terminator. */
  lemma PointerInside(t: string, k: nat)
    ensures var z := AfterTurns(t, true, JsonPassOne.START, k); z.Some? ==> z.value.p <= |t|
    ensures Document(t).Some? ==>
              var s := JsonPassTwo.Restart(JsonPassOne.Counted(Document(t).value,
                  SkipSpace(t, Value(t, 0).value.next)));
              var z := AfterTurns(t, false, s, k);
              z.Some? ==> z.value.p <= |t|
  {
    hide Run, Value, AfterTurns;
    JsonPassOne.PassOneCorrect(t);
    StaysInside(t, true, JsonPassOne.START, k);
    if Document(t).Some? {
      var v := Document(t).value;
      var z := JsonPassTwo.PassTwoCorrect(t, v);
      StaysInside(t, false, JsonPassTwo.Restart(JsonPassOne.Counted(v, SkipSpace(t, Value(t, 0).value.next))), k);
    }
  }

  /** ptr never moves back, and a third look at a byte advances. */
  lemma LookTwice(t: string, first: bool, s: State)
    requires s.p <= |t|
    ensures var o := Step(t, first, s); o.Running? ==>
              o.s.p >= s.p &&
              var o2 := Step(t, first, o.s); o2.Running? ==> o2.s.p > s.p
  {
    hide Step;
    StepAdvances(t, first, s);
    var o := Step(t, first, s);
    if o.Running? {
      StepDecreases(t, first, s);
      if o.s.p <= |t| {
        StepAdvances(t, first, o.s);
        StepDecreases(t, first, o.s);
      } else {
        JsonParser.StepInside(t, first, o.s);
      }
    }
  }

  lemma StepAdvances(t: string, first: bool, s: State)
    requires s.p <= |t|
    ensures Step(t, first, s).Running? ==> Step(t, first, s).s.p >= s.p
  {
    hide Next, Spells, Scale, Tail, Wrap64, Escape, Splice, Room;
    forall z: State ensures Next(first, z).Running? ==> Next(first, z).s.p == z.p { NextStays(first, z); }
  }

  // ---- UTF-8

  predicate IsUtf8(s: seq<bv8>) {
    match |s|
    case 1 => Form1(s[0])
    case 2 => Form2(s[0], s[1])
    case 3 => Form3(s[0], s[1], s[2])
    case 4 => Form4(s[0], s[1], s[2], s[3])
    case _ => false
  }

  function Decode(s: seq<bv8>): bv32 {
    match |s|
    case 1 => Carried1(s[0])
    case 2 => Carried2(s[0], s[1])
    case 3 => Carried3(s[0], s[1], s[2])
    case 4 => Carried4(s[0], s[1], s[2], s[3])
    case _ => 0
  }

  /** What the second pass writes for a code point is its UTF-8 form, of the length the first pass counted. */
  lemma EncodeIsUtf8(u: bv32)
    requires u <= 0x10FFFF && !(0xD800 <= u <= 0xDFFF)
    ensures IsUtf8(Encode(u)) && Decode(Encode(u)) == u && |Encode(u)| == Count(u)
  {
    hide Form1, Form2, Form3, Form4, Carried1, Carried2, Carried3, Carried4, LowByte, IsUtf8, Decode;
    if u <= 0x7F {
      OneByte(u);
      One(LowByte(u));
    } else if u <= 0x7FF {
      TwoBytes(u);
      Two(LowByte(0xC0 | (u >> 6)), LowByte(0x80 | (u & 0x3F)));
    } else if u <= 0xFFFF {
      ThreeBytes(u);
      Three(LowByte(0xE0 | (u >> 12)), LowByte(0x80 | ((u >> 6) & 0x3F)), LowByte(0x80 | (u & 0x3F)));
    } else {
      FourBytes(u);
      Four(LowByte(0xF0 | (u >> 18)), LowByte(0x80 | ((u >> 12) & 0x3F)), LowByte(0x80 | ((u >> 6) & 0x3F)),
           LowByte(0x80 | (u & 0x3F)));
    }
  }

  lemma One(a: bv8)
    ensures IsUtf8([a]) == Form1(a) && Decode([a]) == Carried1(a)
  {
    hide Form1, Carried1;
  }

  lemma Two(a: bv8, b: bv8)
    ensures IsUtf8([a, b]) == Form2(a, b) && Decode([a, b]) == Carried2(a, b)
  {
    hide Form2, Carried2;
  }

  lemma Three(a: bv8, b: bv8, c: bv8)
    ensures IsUtf8([a, b, c]) == Form3(a, b, c) && Decode([a, b, c]) == Carried3(a, b, c)
  {
    hide Form3, Carried3;
  }

  lemma Four(a: bv8, b: bv8, c: bv8, d: bv8)
    ensures IsUtf8([a, b, c, d]) == Form4(a, b, c, d) && Decode([a, b, c, d]) == Carried4(a, b, c, d)
  {
    hide Form4, Carried4;
  }

  /** A \u escape is never more than four hex digits. */
  lemma FourHexBound(t: string, p: nat)
    requires p + 4 <= |t| && FourHex(t, p).Some?
    ensures FourHex(t, p).value <= 0xFFFF
  {
    var b1, b2, b3, b4 := HexValue(At(t, p + 1)), HexValue(At(t, p + 2)), HexValue(At(t, p + 3)),
        HexValue(At(t, p + 4));
    assert b1 <= 0xF && b2 <= 0xF && b3 <= 0xF && b4 <= 0xF;
    HexBits(b1, b2, b3, b4);
  }

  /** Section 2.2 of RFC 2781: the code point of a surrogate pair. */
  function Surrogates(hi: bv32, lo: bv32): bv32 {
    0x10000 + ((hi - 0xD800) << 10) + (lo - 0xDC00)
  }

  /** The parser joins a well-formed pair correctly exactly when bit 0x40 of the high surrogate is clear. */
  lemma PairsWithOr(hi: bv32, lo: bv32)
    requires 0xD800 <= hi <= 0xDBFF && 0xDC00 <= lo <= 0xDFFF
    ensures Combine(hi, lo) == Surrogates(hi, lo) <==> hi & 0x40 == 0
  {
    PairBits(hi, lo);
  }

  /** U+20000 is written as U+10000 and so is not itself when read back. */
  lemma PairMisread()
    ensures Surrogates(0xD840, 0xDC00) == 0x20000
    ensures Combine(0xD840, 0xDC00) == 0x10000
  {
  }
}
