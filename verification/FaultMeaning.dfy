/**
 Which trees configure which faults, stated on the members themselves: the first member of
 each name counts, members may come in any order, and other members are ignored.
 */
module FaultMeaning {
  import opened CText
  import opened JsonReference
  import opened Fault
  import opened FaultParser

  // ---- members

  /** v is the value of the first member of that name. */
  ghost predicate Holds(ms: seq<Member>, name: string, v: Json) {
    exists i :: FirstAt(ms, name, i) && ms[i].value == v
  }

  predicate FirstAt(ms: seq<Member>, name: string, i: int) {
    0 <= i < |ms| && CString(ms[i].name) == name && forall j :: 0 <= j < i ==> CString(ms[j].name) != name
  }

  predicate Lacks(ms: seq<Member>, name: string) {
    forall i :: 0 <= i < |ms| ==> CString(ms[i].name) != name
  }

  /** The member is a string and s its C string. */
  ghost predicate HoldsString(ms: seq<Member>, name: string, s: string) {
    exists t :: Holds(ms, name, Str(t)) && CString(t) == s
  }

  /** The member is an integer whose low 32 bits, read as a signed number, are x. */
  ghost predicate HoldsInt32(ms: seq<Member>, name: string, x: int) {
    exists i :: Holds(ms, name, Int(i)) && (i - x) % 0x1_0000_0000 == 0 && -0x8000_0000 <= x < 0x8000_0000
  }

  /** The member is an integer whose low 32 bits, read as an unsigned number, are x. */
  ghost predicate HoldsUint32(ms: seq<Member>, name: string, x: int) {
    exists i :: Holds(ms, name, Int(i)) && (i - x) % 0x1_0000_0000 == 0 && 0 <= x < 0x1_0000_0000
  }

  /** A path: the string member, or the default if there is no such member. */
  ghost predicate HoldsPath(ms: seq<Member>, name: string, default: string, path: string) {
    HoldsString(ms, name, path) || (Lacks(ms, name) && path == default)
  }

  ghost predicate HoldsPaths(ms: seq<Member>, f: Fault) {
    HoldsPath(ms, "prefix", "/", f.prefix) && HoldsPath(ms, "suffix", "", f.suffix)
  }

  /** The object configures the fault. */
  ghost predicate Configures(v: Json, f: Fault) {
    && v.Obj? && HoldsPaths(v.members, f)
    && var ms := v.members;
       match f
       case Unreadable(_, _, code) => HoldsString(ms, "type", "unreadable") && HoldsInt32(ms, "code", code)
       case Unwritable(_, _, code) => HoldsString(ms, "type", "unwritable") && HoldsInt32(ms, "code", code)
       case ReadDelay(_, _, delayMs, fraction) =>
         && HoldsString(ms, "type", "read_delay")
         && HoldsUint32(ms, "delay_ms", delayMs) && Holds(ms, "fraction", Dbl(fraction))
       case WriteDelay(_, _, delayMs, fraction) =>
         && HoldsString(ms, "type", "write_delay")
         && HoldsUint32(ms, "delay_ms", delayMs) && Holds(ms, "fraction", Dbl(fraction))
       case ReadCorrupt(_, _, mode, count, fraction) =>
         && HoldsString(ms, "type", "read_corrupt") && HoldsUint32(ms, "mode", mode)
         && HoldsInt32(ms, "count", count) && Holds(ms, "fraction", Dbl(fraction))
       case WriteCorrupt(_, _, mode, count, fraction) =>
         && HoldsString(ms, "type", "write_corrupt") && HoldsUint32(ms, "mode", mode)
         && HoldsInt32(ms, "count", count) && Holds(ms, "fraction", Dbl(fraction))
  }

  // ---- the lookups

  lemma {:induction false} FirstMemberIs(ms: seq<Member>, name: string)
    ensures match FirstMember(ms, name)
            case None => Lacks(ms, name)
            case Some(v) => Holds(ms, name, v)
    decreases |ms|
  {
    hide CString;
    if ms != [] {
      if CString(ms[0].name) == name {
        assert FirstAt(ms, name, 0);
      } else {
        FirstMemberIs(ms[1..], name);
        match FirstMember(ms[1..], name) {
          case None =>
            assert forall i :: 0 < i < |ms| ==> ms[i] == ms[1..][i - 1];
          case Some(v) =>
            var i :| FirstAt(ms[1..], name, i) && ms[1..][i].value == v;
            assert forall j :: 0 < j < |ms| ==> ms[j] == ms[1..][j - 1];
            assert FirstAt(ms, name, i + 1) && ms[i + 1].value == v;
        }
      }
    }
  }

  /** There is only one first member. */
  lemma HoldsOne(ms: seq<Member>, name: string, v: Json, w: Json)
    requires Holds(ms, name, v)
    ensures !Lacks(ms, name) && (Holds(ms, name, w) ==> v == w)
  {
    hide CString;
    var i :| FirstAt(ms, name, i) && ms[i].value == v;
    if Holds(ms, name, w) {
      var j :| FirstAt(ms, name, j) && ms[j].value == w;
      assert i == j;
    }
  }

  lemma ChildIs(ms: seq<Member>, name: string, v: Json)
    ensures Child(Obj(ms), name) == Some(v) <==> Holds(ms, name, v)
    ensures Child(Obj(ms), name) == None <==> Lacks(ms, name)
  {
    FirstMemberIs(ms, name);
    hide FirstMember, Lacks, FirstAt, Holds;
    if Holds(ms, name, v) {
      if FirstMember(ms, name).Some? {
        HoldsOne(ms, name, FirstMember(ms, name).value, v);
      }
      HoldsOne(ms, name, v, v);
    }
    if FirstMember(ms, name).Some? {
      HoldsOne(ms, name, FirstMember(ms, name).value, v);
    }
  }

  lemma StringIs(ms: seq<Member>, name: string, s: string)
    ensures HoldsString(ms, name, s) <==> exists t :: Child(Obj(ms), name) == Some(Str(t)) && CString(t) == s
  {
    hide Child, Holds, CString;
    forall t: string
      ensures Child(Obj(ms), name) == Some(Str(t)) <==> Holds(ms, name, Str(t))
    {
      ChildIs(ms, name, Str(t));
    }
  }

  lemma PathIs(ms: seq<Member>, name: string, default: string, s: string)
    ensures HoldsPath(ms, name, default, s) <==> StringMember(Obj(ms), name, default) == Some(s)
  {
    hide Child, Holds, HoldsString, Lacks, CString;
    StringIs(ms, name, s);
    ChildIs(ms, name, Null);
  }

  lemma Wrapped(i: int, x: int)
    ensures Wrap32(i) == x <==> (i - x) % 0x1_0000_0000 == 0 && -0x8000_0000 <= x < 0x8000_0000
    ensures Unsigned32(i) == x <==> (i - x) % 0x1_0000_0000 == 0 && 0 <= x < 0x1_0000_0000
  {
    var m := 0x1_0000_0000;
    var q := (i + TWO31) / m;
    assert Wrap32(i) == i - q * m;
    var r := i / m;
    assert Unsigned32(i) == i - r * m;
    if (i - x) % m == 0 {
      var k := (i - x) / m;
      assert x == i - k * m;
    }
  }

  lemma IntIs(ms: seq<Member>, name: string, x: int)
    ensures var c := IntMember(Obj(ms), name);
            && (HoldsInt32(ms, name, x) <==> c.Some? && Wrap32(c.value) == x)
            && (HoldsUint32(ms, name, x) <==> c.Some? && Unsigned32(c.value) == x)
  {
    hide Child, Holds, Wrap32, Unsigned32;
    forall i: int
      ensures Child(Obj(ms), name) == Some(Int(i)) <==> Holds(ms, name, Int(i))
    {
      ChildIs(ms, name, Int(i));
    }
    var c := IntMember(Obj(ms), name);
    if c.Some? {
      Wrapped(c.value, x);
      assert Holds(ms, name, Int(c.value));
    }
    if HoldsInt32(ms, name, x) {
      var i :| Holds(ms, name, Int(i)) && (i - x) % 0x1_0000_0000 == 0 && -0x8000_0000 <= x < 0x8000_0000;
      assert c == Some(i);
    }
    if HoldsUint32(ms, name, x) {
      var i :| Holds(ms, name, Int(i)) && (i - x) % 0x1_0000_0000 == 0 && 0 <= x < 0x1_0000_0000;
      assert c == Some(i);
    }
  }

  lemma DoubleIs(ms: seq<Member>, name: string, x: real)
    ensures Holds(ms, name, Dbl(x)) <==> DoubleMember(Obj(ms), name) == Some(x)
  {
    hide Child, Holds;
    ChildIs(ms, name, Dbl(x));
  }

  // ---- faults

  lemma LookUps(ms: seq<Member>, f: Fault)
    ensures HoldsPaths(ms, f) <==>
            && StringMember(Obj(ms), "prefix", "/") == Some(f.prefix)
            && StringMember(Obj(ms), "suffix", "") == Some(f.suffix)
  {
    hide HoldsPath, StringMember;
    PathIs(ms, "prefix", "/", f.prefix);
    PathIs(ms, "suffix", "", f.suffix);
  }

  lemma NumberLookUps(ms: seq<Member>, f: Fault)
    ensures IsCode(f) ==>
              (HoldsInt32(ms, "code", f.code) <==>
               IntMember(Obj(ms), "code").Some? && Wrap32(IntMember(Obj(ms), "code").value) == f.code)
    ensures IsDelay(f) ==>
              (HoldsUint32(ms, "delay_ms", f.delayMs) <==>
               IntMember(Obj(ms), "delay_ms").Some? && Unsigned32(IntMember(Obj(ms), "delay_ms").value) == f.delayMs)
    ensures IsCorrupt(f) ==>
              && (HoldsUint32(ms, "mode", f.mode) <==>
                  IntMember(Obj(ms), "mode").Some? && Unsigned32(IntMember(Obj(ms), "mode").value) == f.mode)
              && (HoldsInt32(ms, "count", f.count) <==>
                  IntMember(Obj(ms), "count").Some? && Wrap32(IntMember(Obj(ms), "count").value) == f.count)
    ensures !IsCode(f) ==>
              (Holds(ms, "fraction", Dbl(f.fraction)) <==> DoubleMember(Obj(ms), "fraction") == Some(f.fraction))
  {
    hide HoldsInt32, HoldsUint32, Holds, IntMember, DoubleMember, Wrap32, Unsigned32;
    match f {
      case Unreadable(_, _, code) => IntIs(ms, "code", code);
      case Unwritable(_, _, code) => IntIs(ms, "code", code);
      case ReadDelay(_, _, d, x) =>
        IntIs(ms, "delay_ms", d);
        DoubleIs(ms, "fraction", x);
      case WriteDelay(_, _, d, x) =>
        IntIs(ms, "delay_ms", d);
        DoubleIs(ms, "fraction", x);
      case ReadCorrupt(_, _, m, c, x) =>
        IntIs(ms, "mode", m);
        IntIs(ms, "count", c);
        DoubleIs(ms, "fraction", x);
      case WriteCorrupt(_, _, m, c, x) =>
        IntIs(ms, "mode", m);
        IntIs(ms, "count", c);
        DoubleIs(ms, "fraction", x);
    }
  }

  /** An object is parsed to a fault if and only if it configures that fault; any other tree is refused. */
  lemma FaultIs(v: Json, f: Fault)
    ensures FaultOf(v) == Some(f) <==> Configures(v, f)
  {
    if v.Obj? {
      ObjectIs(v.members, f);
    } else {
      NoChild(v);
      hide Child;
    }
  }

  lemma ObjectIs(ms: seq<Member>, f: Fault)
    ensures FaultOf(Obj(ms)) == Some(f) <==> Configures(Obj(ms), f)
  {
    hide HoldsInt32, HoldsUint32, Holds, HoldsString, HoldsPaths, IntMember, DoubleMember, StringMember, Child, CString,
         WithPaths;
    LookUps(ms, f);
    StringIs(ms, "type", TypeName(f));
    KindIs(ms, f);
    var paths := StringMember(Obj(ms), "prefix", "/").Some? && StringMember(Obj(ms), "suffix", "").Some?;
    if paths {
      var p, s := StringMember(Obj(ms), "prefix", "/").value, StringMember(Obj(ms), "suffix", "").value;
      match Child(Obj(ms), "type") {
        case Some(Str(t)) => WithPathsKeeps(Obj(ms), CString(t), p, s);
        case _ =>
      }
    }
  }

  /** The members that the kind of f asks for besides its paths. */
  ghost predicate NumbersHold(ms: seq<Member>, f: Fault) {
    match f
    case Unreadable(_, _, code) => HoldsInt32(ms, "code", code)
    case Unwritable(_, _, code) => HoldsInt32(ms, "code", code)
    case ReadDelay(_, _, d, x) => HoldsUint32(ms, "delay_ms", d) && Holds(ms, "fraction", Dbl(x))
    case WriteDelay(_, _, d, x) => HoldsUint32(ms, "delay_ms", d) && Holds(ms, "fraction", Dbl(x))
    case ReadCorrupt(_, _, m, c, x) =>
      HoldsUint32(ms, "mode", m) && HoldsInt32(ms, "count", c) && Holds(ms, "fraction", Dbl(x))
    case WriteCorrupt(_, _, m, c, x) =>
      HoldsUint32(ms, "mode", m) && HoldsInt32(ms, "count", c) && Holds(ms, "fraction", Dbl(x))
  }

  lemma KindIs(ms: seq<Member>, f: Fault)
    ensures WithPaths(Obj(ms), TypeName(f), f.prefix, f.suffix) == Some(f) <==> NumbersHold(ms, f)
  {
    hide HoldsInt32, HoldsUint32, Holds, IntMember, DoubleMember;
    NumberLookUps(ms, f);
    hide Wrap32, Unsigned32;
  }

  lemma WithPathsKeeps(v: Json, name: string, prefix: string, suffix: string)
    ensures var r := WithPaths(v, name, prefix, suffix);
            r.Some? ==> TypeName(r.value) == name && r.value.prefix == prefix && r.value.suffix == suffix
  {
    hide IntMember, DoubleMember, Wrap32, Unsigned32;
  }

  lemma NoChild(v: Json)
    requires !v.Obj?
    ensures Child(v, "type") == None
  {
  }

  /** A missing or wrongly typed member, or an unknown type, refuses the object; a missing path is its default. */
  lemma FaultRefused(ms: seq<Member>)
    ensures FaultOf(Obj(ms)) == None <==> forall f :: !Configures(Obj(ms), f)
    ensures FaultOf(Obj(ms)).Some? && Lacks(ms, "prefix") ==> FaultOf(Obj(ms)).value.prefix == "/"
    ensures FaultOf(Obj(ms)).Some? && Lacks(ms, "suffix") ==> FaultOf(Obj(ms)).value.suffix == ""
    ensures Lacks(ms, "type") || (Lacks(ms, "code") && Lacks(ms, "fraction")) ==> FaultOf(Obj(ms)) == None
  {
    hide FaultOf, Lacks, Holds;
    forall f: Fault
      ensures FaultOf(Obj(ms)) == Some(f) <==> Configures(Obj(ms), f)
    {
      FaultIs(Obj(ms), f);
    }
    if FaultOf(Obj(ms)).Some? {
      var f := FaultOf(Obj(ms)).value;
      assert Configures(Obj(ms), f);
      Present(ms, "prefix", f.prefix);
      Present(ms, "suffix", f.suffix);
      Present(ms, "type", TypeName(f));
      if IsCode(f) {
        PresentInt(ms, "code", f.code);
      } else {
        HoldsOne(ms, "fraction", Dbl(f.fraction), Dbl(f.fraction));
      }
    }
  }

  lemma Present(ms: seq<Member>, name: string, s: string)
    ensures HoldsString(ms, name, s) ==> !Lacks(ms, name)
  {
    hide Lacks, Holds;
    if HoldsString(ms, name, s) {
      var t :| Holds(ms, name, Str(t)) && CString(t) == s;
      HoldsOne(ms, name, Str(t), Str(t));
    }
  }

  lemma PresentInt(ms: seq<Member>, name: string, x: int)
    ensures HoldsInt32(ms, name, x) ==> !Lacks(ms, name)
  {
    hide Lacks, Holds;
    if HoldsInt32(ms, name, x) {
      var i :| Holds(ms, name, Int(i)) && (i - x) % 0x1_0000_0000 == 0;
      HoldsOne(ms, name, Int(i), Int(i));
    }
  }

  // ---- lists and texts

  ghost predicate ConfigureAll(vs: seq<Json>, fs: seq<Fault>) {
    |vs| == |fs| && forall i :: 0 <= i < |fs| ==> Configures(vs[i], fs[i])
  }

  lemma {:induction false} FaultsAre(vs: seq<Json>, fs: seq<Fault>)
    ensures FaultsOf(vs) == Some(fs) <==> ConfigureAll(vs, fs)
    decreases |vs|
  {
    hide FaultOf, Configures;
    if vs != [] && fs != [] {
      FaultIs(vs[0], fs[0]);
      FaultsAre(vs[1..], fs[1..]);
      AllOrNothing(vs, fs);
      assert fs == [fs[0]] + fs[1..];
    }
  }

  lemma AllOrNothing(vs: seq<Json>, fs: seq<Fault>)
    requires vs != [] && fs != []
    ensures ConfigureAll(vs, fs) <==> Configures(vs[0], fs[0]) && ConfigureAll(vs[1..], fs[1..])
  {
    hide Configures;
    if Configures(vs[0], fs[0]) && ConfigureAll(vs[1..], fs[1..]) {
      forall i | 0 <= i < |fs|
        ensures Configures(vs[i], fs[i])
      {
        if i > 0 {
          assert vs[i] == vs[1..][i - 1] && fs[i] == fs[1..][i - 1];
        }
      }
    }
  }

  /** The tree configures the list: by its "faults" member, or none if it has no such member. */
  ghost predicate TreeConfigures(root: Json, fs: seq<Fault>) {
    if !root.Obj? || Lacks(root.members, "faults") then fs == []
    else exists vs :: Holds(root.members, "faults", Arr(vs)) && ConfigureAll(vs, fs)
  }

  /** faults_parse gives exactly the list that the tree of the text configures, and refuses every other text. */
  lemma TextConfigures(str: string, fs: seq<Fault>)
    ensures FaultsParse(str) == Some(fs) <==> ParseText(str).Some? && TreeConfigures(ParseText(str).value, fs)
  {
    if ParseText(str).Some? {
      hide ParseText, FaultsOf, ConfigureAll, Lacks, Holds;
      var root := ParseText(str).value;
      if root.Obj? {
        ChildIs(root.members, "faults", Null);
        forall vs: seq<Json>
          ensures Child(root, "faults") == Some(Arr(vs)) <==> Holds(root.members, "faults", Arr(vs))
          ensures FaultsOf(vs) == Some(fs) <==> ConfigureAll(vs, fs)
        {
          ChildIs(root.members, "faults", Arr(vs));
          FaultsAre(vs, fs);
        }
        hide Child;
      }
    }
  }
}
