/**
 json_parse_ex as it is written: one loop over the bytes that updates `flags`, `ptr`,
 `top`, the counters and the nodes in place, run twice. The class is proved against the
 machine of JsonMachine, whose meaning the pass lemmas give.
 */
module JsonParser {
  import opened CText
  import opened JsonEscape
  import opened JsonMachine
  import opened JsonReference
  import opened JsonLayout
  import opened JsonNumbers
  import opened JsonMemory
  import JsonPassOne
  import JsonPassTwo

  datatype Flag =
    | FNext | FReproc | FNeedComma | FSeekValue | FEscaped | FString | FNeedColon | FDone
    | FNumNegative | FNumZero | FNumE | FNumEGotSign | FNumENegative

  /** How a part of the loop body is left. */
  datatype Exit = Again | Below | Break | Failed

  class Parser {
    const text: string
    var first: bool
    var ptr: int
    var flags: set<Flag>
    var numDigits: nat
    var numE: int
    var numFraction: int
    var stringLength: nat
    var top: Ptr
    var root: Ptr
    var alloc: Ptr
    var heap: seq<Node>
    var reserved: seq<Reserved>

    constructor (json: string)
      ensures text == json && first && Fresh()
      ensures heap == [] && reserved == [] && alloc == NULL
    {
      text := json;
      first := true;
      ptr := 0;
      flags := {FSeekValue};
      numDigits, numE, numFraction, stringLength := 0, 0, 0, 0;
      top, root, alloc := NULL, NULL, NULL;
      heap, reserved := [], [];
    }

    /** The state at the top of a pass. */
    ghost predicate Fresh()
      reads this
    {
      ptr == 0 && flags == {FSeekValue} && top == NULL && root == NULL
    }

    ghost function Registers(): Num
      reads this
    {
      Num(FNumNegative in flags, FNumZero in flags, FNumE in flags, FNumEGotSign in flags, FNumENegative in flags,
          numDigits, numFraction, numE)
    }

    ghost predicate AtNumber()
      reads this
    {
      0 <= top < |heap| && (heap[top].u.PInt? || heap[top].u.PDbl?)
    }

    /** What the flags and the type of `top` amount to. */
    ghost function ModeNow(): Mode
      reads this
    {
      if FString in flags then InString(FEscaped in flags, stringLength)
      else if FDone in flags then Finished
      else if FSeekValue in flags then Seek(FNeedComma in flags, FNeedColon in flags)
      else if AtNumber() then InNumber(Registers())
      else InObject(FNeedComma in flags)
    }

    ghost function Memory(p: nat, m: Mode): State
      reads this
    {
      State(p, m, top, root, alloc, heap, reserved)
    }

    ghost function View(p: nat): State
      reads this
    {
      Memory(p, ModeNow())
    }

    /** Flags that never survive an iteration. */
    ghost predicate Settled()
      reads this
    {
      FNext !in flags && FReproc !in flags && Clean()
    }

    /** Which flags may stand together. */
    ghost predicate Clean()
      reads this
    {
      && |heap| == |reserved| && NULL <= top < |heap|
      && (FString !in flags ==> FEscaped !in flags)
      && (FSeekValue !in flags ==> FNeedColon !in flags)
      && (FString in flags ==> flags !! {FSeekValue, FDone, FNeedComma})
      && (FNext in flags ==> flags !! {FString, FSeekValue, FDone, FNeedColon})
    }

    /** What the code below the switches makes of the pending flags. */
    ghost function Pending(): Outcome
      requires 0 <= ptr
      reads this
    {
      var p := if FReproc in flags then ptr else ptr + 1;
      if FNext in flags then Next(first, Memory(p, Finished)) else Running(View(p))
    }

    /** The promise of each part of the loop body, about the step from `was`. */
    ghost predicate Follows(was: State, e: Exit)
      reads this
    {
      var o := Step(text, first, was);
      && 0 <= ptr
      && match e
         case Again => Settled() && o == Running(View(ptr + 1))
         case Below => o == Pending() && Clean()
         case Break => o == Accepted(was)
         case Failed => o == Rejected && Memory(was.p, was.mode) == was
    }

    // ---- below the switches

    /** Store `top` in its parent and count it. */
    method HandUp(parent: Ptr)
      requires 0 <= parent < |heap| && Attach(first, heap[parent].u, top).Some?
      modifies this`heap
      ensures heap == old(heap)[parent := old(heap)[parent].(u := Attach(first, old(heap)[parent].u, top).value)]
    {
      if !first {
        match heap[parent].u {
          case PObj(n, Allocated(es, names)) =>
            heap := heap[parent := heap[parent].(u := PObj(n, Allocated(es[n := es[n].(value := top)], names)))];
          case PArr(n, slots) =>
            heap := heap[parent := heap[parent].(u := PArr(n, slots[n := top]))];
          case _ =>
        }
      }
      match heap[parent].u {
        case PObj(n, values) => heap := heap[parent := heap[parent].(u := PObj(n + 1, values))];
        case PArr(n, slots) => heap := heap[parent := heap[parent].(u := PArr(n + 1, slots))];
        case _ =>
      }
    }

    /** flag_next: the finished value goes to its parent. */
    method Advance(ghost p: nat)
      requires FNext in flags && FReproc !in flags && Clean() && !Next(first, Memory(p, Finished)).Crash?
      modifies this`flags, this`heap, this`top
      ensures Next(first, old(Memory(p, Finished))) == Running(View(p)) && Settled()
    {
      flags := flags - {FNext} + {FNeedComma};
      if heap[top].parent == NULL {
        flags := flags + {FDone};
        return;
      }
      var parent := heap[top].parent;
      if heap[parent].u.PArr? {
        flags := flags + {FSeekValue};
      }
      HandUp(parent);
      top := parent;
    }

    method Settle()
      requires 0 <= ptr && !Pending().Crash? && Clean()
      modifies this
      ensures first == old(first)
      ensures -1 <= ptr && old(Pending()) == Running(View(ptr + 1)) && Settled()
    {
      hide Next;
      if FReproc in flags {
        flags := flags - {FReproc};
        ptr := ptr - 1;
      }
      if FNext in flags {
        Advance(ptr + 1);
      }
    }

    // ---- new_value

    method NewValue(u: Payload, ghost p: nat, ghost m: Mode)
      requires JsonMachine.NewValue(first, Memory(p, m), u).Running?
      modifies this`top, this`root, this`alloc, this`heap, this`reserved
      ensures JsonMachine.NewValue(first, old(Memory(p, m)), u) == Running(Memory(p, m))
      ensures 0 <= top < |heap| && SameKind(heap[top].u, u)
      ensures old(|heap| == |reserved|) ==> |heap| == |reserved|
    {
      if !first {
        top := alloc;
        alloc := reserved[top].next;
        if root == NULL {
          root := top;
        }
        var counted := heap[top].u;
        heap := heap[top := heap[top].(u := Room(counted))];
        if HasNames(counted) {
          reserved := reserved[top := ObjectMem(0)];
        }
        return;
      }
      var value := |heap|;
      heap := heap + [Node(top, u)];
      if root == NULL {
        root := value;
      }
      if 0 <= alloc < |reserved| {
        reserved := reserved[alloc := NextAlloc(value)];
      }
      reserved := reserved + [NextAlloc(NULL)];
      alloc := value;
      top := value;
    }

    // ---- strings

    /** string [string_length ++] = c */
    method Put(c: char, ghost p: nat, ghost m: Mode)
      requires Write(Memory(p, m), stringLength, [c]).Running?
      modifies this`heap, this`stringLength
      ensures Write(old(Memory(p, m)), old(stringLength), [c]) == Running(Memory(p, m))
      ensures stringLength == old(stringLength) + 1 && |heap| == old(|heap|)
      ensures 0 <= top < |heap| && heap[top].u.PStr? == old(heap)[top].u.PStr?
              && heap[top].u.PObj? == old(heap)[top].u.PObj?
    {
      match heap[top].u {
        case PStr(n, buf) =>
          assert buf[stringLength := c] == Splice(buf, stringLength, [c]);
          heap := heap[top := heap[top].(u := PStr(n, buf[stringLength := c]))];
        case PObj(n, Allocated(es, names)) =>
          var at := reserved[top].off + stringLength;
          assert names[at := c] == Splice(names, at, [c]);
          heap := heap[top := heap[top].(u := PObj(n, Allocated(es, names[at := c])))];
        case _ =>
      }
      stringLength := stringLength + 1;
    }

    /** string_add, or the longer sequences of a \\u escape. */
    method Add(out: string, count: nat, ghost p: nat, ghost m: Mode)
      requires first || Write(Memory(p, m), stringLength, out).Running?
      modifies this`heap, this`stringLength
      ensures JsonMachine.Emit(first, old(Memory(p, m)), old(stringLength), out, count, p)
           == Running(Memory(p, InString(false, stringLength)))
      ensures |heap| == old(|heap|)
    {
      if first {
        stringLength := stringLength + count;
        return;
      }
      hide Write;
      ghost var was, len := Memory(p, m), stringLength;
      WriteNothing(was, len, out);
      for i := 0 to |out|
        invariant stringLength == len + i && |heap| == |was.heap|
        invariant Write(was, len, out[..i]) == Running(Memory(p, m))
      {
        WriteNext(was, len, out, i);
        Put(out[i], p, m);
      }
      assert out[..|out|] == out;
    }

    /** Four times hex_value (*++ state.ptr). */
    method Hex4() returns (u: bv32, ok: bool)
      requires 0 <= ptr && ptr + 4 <= |text|
      modifies this`ptr
      ensures ok <==> FourHex(text, old(ptr)).Some?
      ensures ok ==> FourHex(text, old(ptr)).value == u && ptr == old(ptr) + 4
      ensures 0 <= ptr
    {
      hide HexValue;
      u, ok := 0, false;
      ptr := ptr + 1;
      var b1 := HexValue(At(text, ptr));
      if b1 == BAD_HEX { return; }
      ptr := ptr + 1;
      var b2 := HexValue(At(text, ptr));
      if b2 == BAD_HEX { return; }
      ptr := ptr + 1;
      var b3 := HexValue(At(text, ptr));
      if b3 == BAD_HEX { return; }
      ptr := ptr + 1;
      var b4 := HexValue(At(text, ptr));
      if b4 == BAD_HEX { return; }
      b1 := (b1 << 4) | b2;
      b2 := (b3 << 4) | b4;
      u, ok := (b1 << 8) | b2, true;
    }

    /** The code point of the \\u escape whose `u` is at ptr. */
    method CodePoint() returns (u: bv32, ok: bool)
      requires 0 <= ptr < |text|
      modifies this`ptr
      ensures 0 <= ptr
      ensures ok <==> Unicode(text, old(ptr)).Some?
      ensures ok ==> Unicode(text, old(ptr)).value == Esc(Chars(Encode(u)), Count(u), ptr + 1)
    {
      hide FourHex, Chars, Encode, Count, Combine, IsSurrogate;
      u, ok := 0, false;
      if |text| - ptr < 4 { return; }
      u, ok := Hex4();
      if ok && IsSurrogate(u) {
        ok := false;
        if |text| - ptr < 6 { return; }
        ptr := ptr + 1;
        if At(text, ptr) != '\\' { return; }
        ptr := ptr + 1;
        if At(text, ptr) != 'u' { return; }
        var u2;
        u2, ok := Hex4();
        u := Combine(u, u2);
      }
    }

    /** The byte after a backslash; flag_escaped has just been cleared. */
    method EscapedByte(b: char) returns (e: Exit)
      requires 0 <= ptr < |text| && b == text[ptr]
      requires FString in flags && FEscaped !in flags && Settled()
      requires var x := Escape(text, ptr);
               !first && x.Some? ==> Write(View(ptr), stringLength, x.value.out).Running?
      modifies this`ptr, this`heap, this`stringLength
      ensures 0 <= ptr && e in {Again, Failed} && |heap| == old(|heap|)
      ensures e == Failed <==> Escape(text, old(ptr)).None?
      ensures e == Failed ==> heap == old(heap)
      ensures e == Again ==>
                var x := Escape(text, old(ptr)).value;
                JsonMachine.Emit(first, old(View(ptr)), old(stringLength), x.out, x.count, x.next)
                  == Running(View(ptr + 1))
    {
      hide Unicode, Write;
      ghost var p, m := ptr, ModeNow();
      var out, count := [b], 1;
      match b {
        case 'b' => out := ['\U{0008}'];
        case 'f' => out := ['\U{000C}'];
        case 'n' => out := ['\n'];
        case 'r' => out := ['\r'];
        case 't' => out := ['\t'];
        case 'u' =>
          var u, ok := CodePoint();
          if !ok {
            return Failed;
          }
          out, count := Chars(Encode(u)), Count(u);
        case _ =>
      }
      Add(out, count, p, m);
      e := Again;
    }

    /** The part of the loop body for flag_string. */
    method StringByte(b: char) returns (e: Exit)
      requires 0 <= ptr <= |text| && b == At(text, ptr)
      requires FString in flags && Settled() && !Step(text, first, View(ptr)).Crash?
      modifies this
      ensures first == old(first) && Follows(old(View(ptr)), e) && e != Break
    {
      hide Next, Escape, Write;
      ghost var p, was := ptr, View(ptr);
      if b == NUL {
        return Failed;
      }
      if FEscaped in flags {
        flags := flags - {FEscaped};
        assert Memory(p, InString(false, stringLength)) == was.(mode := InString(false, stringLength));
        EmitModeless(first, was, stringLength, InString(false, stringLength));
        e := EscapedByte(b);
        return;
      }
      if b == '\\' {
        flags := flags + {FEscaped};
        return Again;
      }
      if b != '"' {
        Add([b], 1, p, was.mode);
        return Again;
      }
      e := Quote();
    }

    /** The closing quote. */
    method Quote() returns (e: Exit)
      requires 0 <= ptr < |text| && text[ptr] == '"'
      requires FString in flags && FEscaped !in flags && Settled() && !Step(text, first, View(ptr)).Crash?
      modifies this
      ensures first == old(first) && Follows(old(View(ptr)), e) && e in {Again, Below}
    {
      hide Next, Write, StepNumber, StepSeek, StepObject, Registers, Settled, Follows;
      StringLive();
      if heap[top].u.PStr? {
        QuoteValue();
        return Below;
      }
      QuoteName();
      return Again;
    }

    lemma StringLive()
      requires 0 <= ptr < |text| && text[ptr] == '"'
      requires FString in flags && FEscaped !in flags && Settled() && !Step(text, first, View(ptr)).Crash?
      ensures 0 <= top < |heap| && (heap[top].u.PStr? || heap[top].u.PObj?)
    {
      hide Next, StepNumber, StepSeek, StepObject, Registers;
    }

    /** The end of a string value. */
    method QuoteValue()
      requires 0 <= ptr < |text| && text[ptr] == '"' && 0 <= top < |heap| && heap[top].u.PStr?
      requires FString in flags && FEscaped !in flags && Settled() && !Step(text, first, View(ptr)).Crash?
      modifies this
      ensures first == old(first) && Follows(old(View(ptr)), Below)
    {
      hide Next, Write, StepNumber, StepSeek, StepObject, Registers;
      ghost var was := View(ptr);
      var len := stringLength;
      if !first {
        Put(NUL, ptr, was.mode);
      }
      flags := flags - {FString} + {FNext};
      heap := heap[top := heap[top].(u := PStr(len, heap[top].u.buf))];
      NextModeless(first, Memory(ptr + 1, was.mode), Finished);
    }

    /** The end of a name. */
    method QuoteName()
      requires 0 <= ptr < |text| && text[ptr] == '"' && 0 <= top < |heap| && heap[top].u.PObj?
      requires FString in flags && FEscaped !in flags && Settled() && !Step(text, first, View(ptr)).Crash?
      modifies this
      ensures first == old(first) && Follows(old(View(ptr)), Again)
    {
      hide Next, Write, StepNumber, StepSeek, StepObject, Registers;
      ghost var was := View(ptr);
      var len := stringLength;
      if !first {
        Put(NUL, ptr, was.mode);
      }
      flags := flags - {FString};
      EndName(len);
      flags := flags + {FSeekValue, FNeedColon};
    }

    /** The name of a member is counted or, in the second pass, entered. */
    method EndName(len: nat)
      requires 0 <= top < |heap| == |reserved| && heap[top].u.PObj?
      requires heap[top].u.values.Allocated?
               ==> heap[top].u.length < |heap[top].u.values.entries| && reserved[top].ObjectMem?
      modifies this`heap, this`reserved
      ensures match old(heap[top].u)
              case PObj(k, Counted(bytes)) =>
                && heap == old(heap)[top := old(heap)[top].(u := PObj(k, Values.Counted(bytes + len + 1)))]
                && reserved == old(reserved)
              case PObj(k, Allocated(es, names)) =>
                var off := old(reserved)[top].off;
                var entry := Entry(off, len, es[k].value);
                && heap == old(heap)[top := old(heap)[top].(u := PObj(k, Allocated(es[k := entry], names)))]
                && reserved == old(reserved)[top := ObjectMem(off + len + 1)]
    {
      match heap[top].u {
        case PObj(k, Counted(bytes)) =>
          heap := heap[top := heap[top].(u := PObj(k, Values.Counted(bytes + len + 1)))];
        case PObj(k, Allocated(es, names)) =>
          var off := reserved[top].off;
          heap := heap[top := heap[top].(u := PObj(k, Allocated(es[k := Entry(off, len, es[k].value)], names)))];
          reserved := reserved[top := ObjectMem(off + len + 1)];
      }
    }

    // ---- values

    ghost predicate Seeking()
      reads this
    {
      FSeekValue in flags && FString !in flags && FDone !in flags
    }

    /** The part of the loop body for flag_seek_value. */
    method SeekByte(b: char) returns (e: Exit)
      requires 0 <= ptr <= |text| && b == At(text, ptr)
      requires Seeking() && Settled() && !Step(text, first, View(ptr)).Crash?
      modifies this
      ensures first == old(first) && Follows(old(View(ptr)), e) && e != Break
    {
      hide Next, StartValue;
      ghost var was := View(ptr);
      if IsSpace(b) {
        return Again;
      }
      if b == ']' {
        if top != NULL && heap[top].u.PArr? {
          flags := flags - {FNeedComma, FSeekValue} + {FNext};
          NextModeless(first, Memory(ptr + 1, was.mode), Finished);
          return Below;
        }
        return Failed;
      }
      if FNeedComma in flags {
        if b != ',' {
          return Failed;
        }
        flags := flags - {FNeedComma};
        return Again;
      }
      if FNeedColon in flags {
        if b != ':' {
          return Failed;
        }
        flags := flags - {FNeedColon};
        return Again;
      }
      e := ValueByte(b);
    }

    /** The first byte of a value. */
    method ValueByte(b: char) returns (e: Exit)
      requires 0 <= ptr <= |text| && b == At(text, ptr) && !IsSpace(b) && b != ']'
      requires Seeking() && Settled() && flags !! {FNeedComma, FNeedColon} && !Step(text, first, View(ptr)).Crash?
      modifies this
      ensures first == old(first) && Follows(old(View(ptr)), e) && e != Break
    {
      hide Next, Spells, JsonMachine.NewValue, JsonMachine.Literal, StartNumber, StepString, StepNumber,
           StepObject, Registers;
      if b == '{' || b == '[' || b == '"' {
        OpenValue(b);
        return Again;
      }
      ghost var was := View(ptr);
      flags := flags - {FSeekValue};
      match b {
        case 't' => e := LiteralValue("rue", PBool(false), true, was);
        case 'f' => e := LiteralValue("alse", PBool(false), false, was);
        case 'n' => e := LiteralValue("ull", PNull, false, was);
        case _ =>
          if IsDigit(b) || b == '-' {
            e := NumberValue(b, was);
          } else {
            return Failed;
          }
      }
    }

    /** The first byte of an object, an array or a string. */
    method OpenValue(b: char)
      requires 0 <= ptr <= |text| && b == At(text, ptr) && (b == '{' || b == '[' || b == '"')
      requires Seeking() && Settled() && flags !! {FNeedComma, FNeedColon} && !Step(text, first, View(ptr)).Crash?
      modifies this
      ensures first == old(first) && Follows(old(View(ptr)), Again)
    {
      hide Next, Spells, JsonMachine.NewValue, JsonMachine.Literal, StartNumber, StepString, StepNumber,
           StepObject, Registers;
      ghost var was := View(ptr);
      flags := flags - {FSeekValue};
      match b {
        case '{' =>
          NewValue(PObj(0, Values.Counted(0)), ptr, was.mode);
        case '[' =>
          NewValue(PArr(0, []), ptr, was.mode);
          flags := flags + {FSeekValue};
        case '"' =>
          NewValue(PStr(0, []), ptr, was.mode);
          flags := flags + {FString};
          stringLength := 0;
      }
    }

    /** true, false and null, after their first letter. */
    method LiteralValue(rest: string, u: Payload, truth: bool, ghost was: State) returns (e: Exit)
      requires 0 <= ptr <= |text| && was == Memory(ptr, was.mode)
      requires Clean() && flags !! {FString, FSeekValue, FDone, FNext, FReproc}
      requires Spells(text, ptr, rest) ==> !JsonMachine.Literal(first, was, truth, u, |rest| + 1).Crash?
      modifies this
      ensures first == old(first) && 0 <= ptr && Clean()
      ensures if Spells(text, old(ptr), rest) then
                e == Below && JsonMachine.Literal(first, was, truth, u, |rest| + 1) == Pending()
              else e == Failed && Memory(was.p, was.mode) == was
    {
      hide Next, Room, Spells, JsonMachine.NewValue;
      var ok := Spell(rest);
      if !ok {
        return Failed;
      }
      NewValue(u, was.p, was.mode);
      if truth {
        heap := heap[top := heap[top].(u := PBool(true))];
      }
      flags := flags + {FNext};
      assert heap[top := heap[top]] == heap;
      NextModeless(first, Memory(ptr + 1, was.mode), Finished);
      return Below;
    }

    /** The lookahead: letter by letter, but only if there are enough of them. */
    method Spell(rest: string) returns (ok: bool)
      requires 0 <= ptr <= |text|
      modifies this`ptr
      ensures ok == Spells(text, old(ptr), rest) && old(ptr) <= ptr && (ok ==> ptr == old(ptr) + |rest|)
    {
      if |text| - ptr < |rest| {
        return false;
      }
      var i, p := 0, ptr;
      while i < |rest|
        invariant 0 <= i <= |rest| && ptr == p + i
        invariant forall j :: 0 <= j < i ==> At(text, p + 1 + j) == rest[j]
      {
        ptr := ptr + 1;
        if At(text, ptr) != rest[i] {
          return false;
        }
        i := i + 1;
      }
      return true;
    }

    /** The second pass does not read a number again. */
    method SkipDigits(b: char)
      requires 0 <= ptr < |text| && b == text[ptr]
      modifies this`ptr
      ensures ptr == SkipNumber(text, old(ptr)) && old(ptr) <= ptr <= |text|
    {
      var c := b;
      while IsNumberChar(c)
        invariant old(ptr) <= ptr <= |text| && c == At(text, ptr)
        invariant SkipNumber(text, old(ptr)) == SkipNumber(text, ptr)
        decreases |text| - ptr
      {
        ptr := ptr + 1;
        c := if ptr == |text| then NUL else text[ptr];
      }
    }

    /** A number in the second pass. */
    method SkipValue(b: char, ghost was: State)
      requires !first && 0 <= ptr < |text| && b == text[ptr]
      requires was == Memory(ptr, was.mode) && Clean() && flags !! {FString, FSeekValue, FDone, FNext, FReproc}
      requires !StartNumber(text, first, was, b).Crash?
      modifies this
      ensures first == old(first) && 0 <= ptr && Clean() && StartNumber(text, first, was, b) == Pending()
    {
      hide Next, Room, JsonMachine.NewValue, SkipNumber;
      NewValue(PInt(0), was.p, was.mode);
      SkipDigits(b);
      flags := flags + {FNext, FReproc};
      NextModeless(first, Memory(ptr, was.mode), Finished);
    }

    /** The first byte of a number. */
    method NumberValue(b: char, ghost was: State) returns (e: Exit)
      requires 0 <= ptr < |text| && b == text[ptr] && (IsDigit(b) || b == '-')
      requires was == Memory(ptr, was.mode) && Clean() && flags !! {FString, FSeekValue, FDone, FNext, FReproc}
      requires !StartNumber(text, first, was, b).Crash?
      modifies this
      ensures first == old(first) && 0 <= ptr && e in {Again, Below}
      ensures e == Again ==> Settled() && StartNumber(text, first, was, b) == Running(View(ptr + 1))
      ensures e == Below ==> Clean() && StartNumber(text, first, was, b) == Pending()
    {
      if first {
        e := FirstNumber(b, was);
      } else {
        SkipValue(b, was);
        e := Below;
      }
    }

    /** A number in the first pass. */
    method FirstNumber(b: char, ghost was: State) returns (e: Exit)
      requires first && 0 <= ptr < |text| && b == text[ptr] && (IsDigit(b) || b == '-')
      requires was == Memory(ptr, was.mode) && Clean() && flags !! {FString, FSeekValue, FDone, FNext, FReproc}
      requires !StartNumber(text, first, was, b).Crash?
      modifies this
      ensures first == old(first) && 0 <= ptr && e in {Again, Below}
      ensures e == Again ==> Settled() && StartNumber(text, first, was, b) == Running(View(ptr + 1))
      ensures e == Below ==> Clean() && StartNumber(text, first, was, b) == Pending()
    {
      hide Next, Room, JsonMachine.NewValue, SkipNumber;
      NewValue(PInt(0), was.p, was.mode);
      flags := flags - {FNumNegative, FNumE, FNumEGotSign, FNumENegative, FNumZero};
      numDigits, numFraction, numE := 0, 0, 0;
      if b != '-' {
        flags := flags + {FReproc};
        return Below;
      }
      flags := flags + {FNumNegative};
      return Again;
    }

    // ---- numbers

    method SetTop(u: Payload)
      requires 0 <= top < |heap|
      modifies this`heap
      ensures heap == old(heap)[top := old(heap)[top].(u := u)]
    {
      heap := heap[top := heap[top].(u := u)];
    }

    /** The part of the loop body for a number under `top`. */
    method NumberByte(b: char) returns (e: Exit)
      requires 0 <= ptr <= |text| && b == At(text, ptr)
      requires AtNumber() && flags !! {FString, FSeekValue, FDone} && Settled() && !Step(text, first, View(ptr)).Crash?
      modifies this
      ensures first == old(first) && Follows(old(View(ptr)), e) && e != Break
    {
      hide Next, Wrap64, Scale, Tail, DigitOf, StepString, StepSeek, StepObject;
      assert heap[top := heap[top]] == heap;
      if IsDigit(b) {
        e := DigitByte(b);
        return;
      }
      if b == '+' || b == '-' {
        if FNumE in flags && FNumEGotSign !in flags {
          flags := flags + {FNumEGotSign};
          if b == '-' {
            flags := flags + {FNumENegative};
          }
          return Again;
        }
      } else if b == '.' && heap[top].u.PInt? {
        if numDigits == 0 {
          return Failed;
        }
        SetTop(PDbl(heap[top].u.i as real));
        numDigits := 0;
        return Again;
      }
      if FNumE !in flags {
        e := MantissaEnd(b);
      } else {
        e := ExponentEnd(b);
      }
    }

    method DigitByte(b: char) returns (e: Exit)
      requires 0 <= ptr <= |text| && b == At(text, ptr) && IsDigit(b)
      requires AtNumber() && flags !! {FString, FSeekValue, FDone} && Settled() && !Step(text, first, View(ptr)).Crash?
      modifies this
      ensures first == old(first) && Follows(old(View(ptr)), e) && e in {Again, Failed}
    {
      if FNumE in flags {
        e := ExponentDigit(b);
      } else if heap[top].u.PInt? {
        e := WholeDigit(b);
      } else {
        e := FractionDigit(b);
      }
    }

    method ExponentDigit(b: char) returns (e: Exit)
      requires 0 <= ptr <= |text| && b == At(text, ptr) && IsDigit(b) && FNumE in flags
      requires AtNumber() && flags !! {FString, FSeekValue, FDone} && Settled() && !Step(text, first, View(ptr)).Crash?
      modifies this
      ensures first == old(first) && Follows(old(View(ptr)), e) && e in {Again, Failed}
    {
      hide Next, Wrap64, Scale, Tail, DigitOf, StepString, StepSeek, StepObject;
      assert heap[top := heap[top]] == heap;
      numDigits := numDigits + 1;
      flags := flags + {FNumEGotSign};
      numE := Wrap64(numE * 10 + DigitOf(b));
      return Again;
    }

    method WholeDigit(b: char) returns (e: Exit)
      requires 0 <= ptr <= |text| && b == At(text, ptr) && IsDigit(b) && FNumE !in flags && AtNumber()
               && heap[top].u.PInt?
      requires AtNumber() && flags !! {FString, FSeekValue, FDone} && Settled() && !Step(text, first, View(ptr)).Crash?
      modifies this
      ensures first == old(first) && Follows(old(View(ptr)), e) && e in {Again, Failed}
    {
      hide Next, Wrap64, Scale, Tail, DigitOf, StepString, StepSeek, StepObject;
      assert heap[top := heap[top]] == heap;
      numDigits := numDigits + 1;
      if FNumZero in flags {
        return Failed;
      }
      if numDigits == 1 && b == '0' {
        flags := flags + {FNumZero};
      }
      SetTop(PInt(Wrap64(heap[top].u.i * 10 + DigitOf(b))));
      return Again;
    }

    method FractionDigit(b: char) returns (e: Exit)
      requires 0 <= ptr <= |text| && b == At(text, ptr) && IsDigit(b) && FNumE !in flags && AtNumber()
               && heap[top].u.PDbl?
      requires AtNumber() && flags !! {FString, FSeekValue, FDone} && Settled() && !Step(text, first, View(ptr)).Crash?
      modifies this
      ensures first == old(first) && Follows(old(View(ptr)), e) && e in {Again, Failed}
    {
      hide Next, Wrap64, Scale, Tail, DigitOf, StepString, StepSeek, StepObject;
      assert heap[top := heap[top]] == heap;
      numDigits := numDigits + 1;
      numFraction := Wrap64(numFraction * 10 + DigitOf(b));
      return Again;
    }

    /** A byte that ends the digits or the fraction. */
    method MantissaEnd(b: char) returns (e: Exit)
      requires 0 <= ptr <= |text| && b == At(text, ptr) && !IsDigit(b)
      requires AtNumber() && !(b == '.' && heap[top].u.PInt?) && flags !! {FString, FSeekValue, FDone, FNumE}
      requires Settled() && !Step(text, first, View(ptr)).Crash?
      modifies this
      ensures first == old(first) && Follows(old(View(ptr)), e) && e != Break
    {
      hide Next, Wrap64, Scale, Tail, EndNumber, StepString, StepSeek, StepObject, NumberDigit;
      ghost var was := View(ptr);
      assert heap[top := heap[top]] == heap;
      if heap[top].u.PDbl? && numDigits == 0 {
        return Failed;
      }
      if b == 'e' || b == 'E' {
        StartExponent(b);
        return Again;
      }
      AddFraction();
      Conclude(was);
      return Below;
    }

    /** A double gets the fraction that has been read. */
    method AddFraction()
      requires AtNumber()
      modifies this`heap
      ensures var u := old(heap[top].u);
              var u' := if u.PDbl? then PDbl(u.r + Tail(numFraction, numDigits)) else u;
              heap == old(heap)[top := old(heap)[top].(u := u')]
    {
      if heap[top].u.PDbl? {
        SetTop(PDbl(heap[top].u.r + Tail(numFraction, numDigits)));
      }
    }

    method StartExponent(b: char)
      requires 0 <= ptr <= |text| && b == At(text, ptr) && (b == 'e' || b == 'E')
      requires AtNumber() && flags !! {FString, FSeekValue, FDone, FNumE} && (heap[top].u.PDbl? ==> numDigits > 0)
      requires Settled() && !Step(text, first, View(ptr)).Crash?
      modifies this
      ensures first == old(first) && Follows(old(View(ptr)), Again)
    {
      hide Next, Wrap64, Scale, Tail, EndNumber, StepString, StepSeek, StepObject, NumberDigit;
      AddFraction();
      flags := flags + {FNumE};
      if heap[top].u.PInt? {
        SetTop(PDbl(heap[top].u.i as real));
      }
      numDigits := 0;
      flags := flags - {FNumZero};
    }

    /** A byte that ends the exponent. */
    method ExponentEnd(b: char) returns (e: Exit)
      requires 0 <= ptr <= |text| && b == At(text, ptr) && !IsDigit(b) && FNumE in flags
      requires AtNumber() && flags !! {FString, FSeekValue, FDone} && Settled() && !Step(text, first, View(ptr)).Crash?
      requires (b == '+' || b == '-') ==> FNumEGotSign in flags
      requires !(b == '.' && heap[top].u.PInt?)
      modifies this
      ensures first == old(first) && Follows(old(View(ptr)), e) && e != Break
    {
      hide Next, Wrap64, Scale, Tail, EndNumber, StepString, StepSeek, StepObject, NumberDigit;
      ghost var was := View(ptr);
      if numDigits == 0 {
        return Failed;
      }
      SetTop(PDbl(Scale(heap[top].u.r, if FNumENegative in flags then Wrap64(-numE) else numE)));
      Conclude(was);
      return Below;
    }

    /** The sign, and the value is done; the byte at ptr is left to be read again. */
    method Conclude(ghost was: State)
      requires 0 <= ptr && AtNumber() && flags !! {FString, FSeekValue, FDone} && Settled()
      requires was.mode.InNumber? && was.mode.num.negative == (FNumNegative in flags)
      requires Live(was, was.top) && JsonMachine.SetTop(was, heap[top].u) == Memory(ptr, was.mode)
      modifies this`heap, this`flags
      ensures EndNumber(first, was, was.mode.num, old(heap[top].u)) == Pending() && Clean()
    {
      hide Next, Wrap64;
      if FNumNegative in flags {
        SetTop(if heap[top].u.PInt? then PInt(Wrap64(-heap[top].u.i)) else PDbl(-heap[top].u.r));
      }
      flags := flags + {FNext, FReproc};
      assert Memory(ptr, was.mode) == JsonMachine.SetTop(was, heap[top].u);
      NextModeless(first, Memory(ptr, was.mode), Finished);
    }

    // ---- objects

    /** The part of the loop body for an object under `top`. */
    method ObjectByte(b: char) returns (e: Exit)
      requires 0 <= ptr <= |text| && b == At(text, ptr)
      requires !AtNumber() && flags !! {FString, FSeekValue, FDone} && Settled() && !Step(text, first, View(ptr)).Crash?
      modifies this
      ensures first == old(first) && Follows(old(View(ptr)), e) && e != Break
    {
      hide Next;
      ghost var was := View(ptr);
      if IsSpace(b) {
        return Again;
      }
      match b {
        case '"' =>
          if FNeedComma in flags {
            return Failed;
          }
          flags := flags + {FString};
          stringLength := 0;
          return Below;
        case '}' =>
          flags := flags - {FNeedComma} + {FNext};
          NextModeless(first, Memory(ptr + 1, was.mode), Finished);
          return Below;
        case ',' =>
          if FNeedComma !in flags {
            return Failed;
          }
          flags := flags - {FNeedComma};
          return Below;
        case _ =>
          return Failed;
      }
    }

    // ---- the loop

    /** One turn of the loop, without the increment of ptr. */
    method Turn() returns (e: Exit)
      requires 0 <= ptr <= |text| && Settled() && !Step(text, first, View(ptr)).Crash?
      modifies this
      ensures first == old(first) && e != Below
      ensures match Step(text, first, old(View(ptr)))
              case Running(s) => e == Again && -1 <= ptr && s == View(ptr + 1) && Settled()
              case Accepted(s) => e == Break && ptr == old(ptr) && s == View(ptr) == old(View(ptr))
              case Rejected => e == Failed && Memory(0, Finished) == old(Memory(0, Finished))
              case Crash => false
    {
      hide StepString, StepSeek, StepNumber, StepObject, Next;
      var b := At(text, ptr);
      if flags !! {FString, FDone, FSeekValue} {
        TopLive(text, first, View(ptr));
      }
      if FString in flags {
        e := StringByte(b);
      } else if FDone in flags {
        if b == NUL {
          return Break;
        }
        if IsSpace(b) {
          return Again;
        }
        return Failed;
      } else if FSeekValue in flags {
        e := SeekByte(b);
      } else if heap[top].u.PInt? || heap[top].u.PDbl? {
        e := NumberByte(b);
      } else {
        e := ObjectByte(b);
      }
      if e == Below {
        Settle();
        e := Again;
      }
    }

    /** One pass over the text. */
    method Pass() returns (ok: bool)
      requires Fresh() && Clean() && !Run(text, first, View(0)).Crash?
      modifies this
      ensures first == old(first)
      ensures match Run(text, first, old(View(0)))
              case Accepted(s) => ok && 0 <= ptr && s == View(ptr)
              case Rejected => !ok
              case _ => false
      ensures old(first && Linked(View(0))) ==> Linked(Memory(0, Finished))
    {
      hide Step, ListOf;
      RunEnds(text, first, View(0));
      ghost var goal := Run(text, first, View(0));
      while true
        invariant first == old(first) && 0 <= ptr && Settled()
        invariant Run(text, first, View(ptr)) == goal
        invariant old(first && Linked(View(0))) ==> Linked(View(ptr))
        decreases Measure(text, View(ptr))
      {
        RunStep(text, first, View(ptr));
        StepInside(text, first, View(ptr));
        StepDecreases(text, first, View(ptr));
        StepLinks(text, first, View(ptr));
        var e := Turn();
        if e == Break {
          return true;
        }
        if e == Failed {
          return false;
        }
        ptr := ptr + 1;
      }
    }

    /** alloc = root: the second pass starts over on the counted nodes. */
    method Restart()
      modifies this
      ensures !first && Fresh() && alloc == old(root) && heap == old(heap) && reserved == old(reserved)
    {
      alloc := root;
      first := false;
      top, root := NULL, NULL;
      flags := {FSeekValue};
      ptr := 0;
    }

    /** e_failed in the first pass: release the allocation list. */
    method Discard() returns (freed: seq<Ptr>)
      requires Linked(Memory(0, Finished))
      modifies this`alloc, this`top
      ensures freed == seq(|heap|, i => i)
    {
      alloc := root;
      freed := [];
      while alloc != NULL
        invariant |freed| <= |heap| && freed == seq(|freed|, i => i)
        invariant alloc == if |freed| < |heap| then |freed| else NULL
        decreases |heap| - |freed|
      {
        top := reserved[alloc].next;
        freed := freed + [alloc];
        alloc := top;
      }
    }
  }

  /** The allocation list of the first pass runs through the whole arena of n nodes in order. */
  predicate ListOf(n: nat, reserved: seq<Reserved>, alloc: Ptr, root: Ptr) {
    && reserved == Chain(n)
    && alloc == n - 1
    && root == (if n == 0 then NULL else 0)
  }

  predicate Linked(s: State) {
    ListOf(|s.heap|, s.reserved, s.alloc, s.root)
  }

  /** Every step of the first pass keeps the allocation list whole, whatever the text. */
  lemma StepLinks(t: string, first: bool, s: State)
    ensures first && Linked(s) && Step(t, first, s).Running? ==> Linked(Step(t, first, s).s)
  {
    if first && s.p <= |t| && Linked(s) {
      match s.mode
      case InString(escaped, len) => StringLinks(t, s, escaped, len);
      case Finished =>
      case Seek(comma, colon) => SeekLinks(t, s, comma, colon);
      case InObject(comma) => NextLinks(s.(p := s.p + 1));
      case InNumber(num) => NumberLinks(t, s, num);
    }
  }

  lemma NextLinks(s: State)
    requires Linked(s)
    ensures Next(true, s).Running? ==> Linked(Next(true, s).s)
  {
  }

  lemma StringLinks(t: string, s: State, escaped: bool, len: nat)
    requires Linked(s) && s.p <= |t|
    ensures var o := StepString(t, true, s, escaped, len); o.Running? ==> Linked(o.s)
  {
    hide Next, Escape, ListOf;
    forall z: State | Linked(z) ensures Next(true, z).Running? ==> Linked(Next(true, z).s) { NextLinks(z); }
  }

  lemma SeekLinks(t: string, s: State, comma: bool, colon: bool)
    requires Linked(s) && s.p <= |t|
    ensures var o := StepSeek(t, true, s, comma, colon); o.Running? ==> Linked(o.s)
  {
    hide Next, Spells, Allocate, ListOf;
    forall z: State | Linked(z) ensures Next(true, z).Running? ==> Linked(Next(true, z).s) { NextLinks(z); }
    forall u ensures Linked(Allocate(s, u)) && Live(Allocate(s, u), Allocate(s, u).top) { AllocateLinks(s, u); }
  }

  lemma AllocateLinks(s: State, u: Payload)
    requires Linked(s)
    ensures Linked(Allocate(s, u)) && Live(Allocate(s, u), Allocate(s, u).top)
  {
    assert Allocate(s, u).reserved == Chain(|s.heap| + 1);
  }

  lemma NumberLinks(t: string, s: State, num: Num)
    requires Linked(s) && s.p <= |t|
    ensures var o := StepNumber(t, true, s, num); o.Running? ==> Linked(o.s)
  {
    hide Next, Wrap64, Scale, Tail, ListOf;
    forall z: State | Linked(z) ensures Next(true, z).Running? ==> Linked(Next(true, z).s) { NextLinks(z); }
  }

  /**
   For every text: NULL exactly when the reference rejects it, and then every node made so
   far has been released once; otherwise a pointer behind which lies the reference's tree.
   */
  method ParseEx(json: string) returns (root: Ptr, heap: seq<Node>, freed: seq<Ptr>)
    ensures match ParseText(json)
            case None => root == NULL && freed == seq(|heap|, i => i)
            case Some(v) =>
              Represents(heap, root, NULL, v) && root == 0 && heap == FilledTree(v, NULL, 0) && freed == []
  {
    hide Document, Run, FilledTree, CountedTree;
    var t := SkipBom(json);
    var parser := new Parser(t);
    JsonPassOne.PassOneCorrect(t);
    assert parser.View(0) == JsonPassOne.START;
    var ok := parser.Pass();
    if !ok {
      freed := parser.Discard();
      return NULL, parser.heap, freed;
    }
    ghost var v := Document(t).value;
    ghost var z := JsonPassTwo.PassTwoCorrect(t, v);
    parser.Restart();
    ok := parser.Pass();
    assert parser.heap[0..Size(v)] == FilledTree(v, NULL, 0);
    TreeRepresents(parser.heap, v, NULL, 0);
    return parser.root, parser.heap, [];
  }

  lemma TopLive(t: string, first: bool, s: State)
    requires !Step(t, first, s).Crash? && (s.mode.InObject? || s.mode.InNumber?)
    ensures Live(s, s.top)
  {
    hide Next;
  }

  lemma StepInside(t: string, first: bool, s: State)
    ensures s.p > |t| ==> Step(t, first, s).Crash?
  {
  }

  lemma {:induction false} RunEnds(t: string, first: bool, s: State)
    ensures !Run(t, first, s).Running?
    decreases Measure(t, s)
  {
    hide Step;
    RunStep(t, first, s);
    StepDecreases(t, first, s);
    if Step(t, first, s).Running? {
      RunEnds(t, first, Step(t, first, s).s);
    }
  }

  lemma EmitModeless(first: bool, s: State, len: nat, m: Mode)
    ensures forall out :: Write(s.(mode := m), len, out).Running? <==> Write(s, len, out).Running?
    ensures forall out, count: nat, next: nat ::
              JsonMachine.Emit(first, s.(mode := m), len, out, count, next)
                == JsonMachine.Emit(first, s, len, out, count, next)
  {
  }

  lemma WriteNothing(s: State, len: nat, out: string)
    requires Write(s, len, out).Running?
    ensures Write(s, len, out[..0]) == Running(s)
  {
    WriteInverse(s, len, out);
    JsonPassTwo.WriteFits(s, len, []);
    JsonPassTwo.WrittenNothing(s, len);
  }

  /** Writing byte by byte is writing at once. */
  lemma WriteNext(s: State, len: nat, out: string, i: nat)
    requires Write(s, len, out).Running? && i < |out|
    ensures var w := Write(s, len, out[..i]);
            w.Running? && Write(w.s, len + i, [out[i]]) == Write(s, len, out[..i + 1])
    ensures Write(s, len, out[..i + 1]).Running?
  {
    hide Write, JsonPassTwo.PutBuffer, JsonPassTwo.Offset, JsonPassTwo.Buffer;
    WriteInverse(s, len, out);
    assert out[..i] + [out[i]] == out[..i + 1];
    JsonPassTwo.WriteFits(s, len, out[..i]);
    JsonPassTwo.WriteFits(s, len, out[..i + 1]);
    JsonPassTwo.WrittenTwice(s, len, out[..i], [out[i]]);
    JsonPassTwo.WriteFits(JsonPassTwo.Written(s, len, out[..i]), len + i, [out[i]]);
  }

  lemma WriteInverse(s: State, i: nat, out: string)
    requires Write(s, i, out).Running?
    ensures JsonPassTwo.Writable(s)
    ensures JsonPassTwo.Offset(s) + i + |out| <= |JsonPassTwo.Buffer(s.heap[s.top].u)|
  {
  }
}
