/**
 faults_parse as it is written: parse the text into nodes, search the nodes, release them.
 */
module FaultParser {
  import opened CText
  import opened JsonMachine
  import opened JsonReference
  import opened JsonLayout
  import opened JsonMemory
  import opened Fault
  import JsonParser
  import JsonFree
  import JsonFreeParsed

  lemma NameString(names: string, e: Entry, name: string)
    requires NameAt(names, e, name)
    ensures CString(names[e.name..]) == CString(name)
  {
    var k := e.name + |name|;
    assert names[e.name..] == names[e.name..k] + [names[k]] + names[k + 1..];
    CStringCut(name, names[k + 1..]);
  }

  /** get_child */
  method GetChild(h: seq<Node>, a: Ptr, name: string, ghost parent: Ptr, ghost v: Json) returns (c: Ptr)
    requires Represents(h, a, parent, v)
    ensures match Child(v, name)
            case None => c == NULL
            case Some(w) => Represents(h, c, a, w)
  {
    match h[a].u {
      case PObj(n, Allocated(es, names)) =>
        ghost var ms := v.members;
        for i := 0 to n
          invariant n == |ms|
          invariant FirstMember(ms, name) == FirstMember(ms[i..], name)
        {
          NameString(names, es[i], ms[i].name);
          assert ms[i..][1..] == ms[i + 1..];
          if CString(names[es[i].name..]) == name {
            return es[i].value;
          }
        }
        c := NULL;
      case _ =>
        c := NULL;
    }
  }

  /** dup_json_str_value; None for -EINVAL. */
  method DupString(h: seq<Node>, c: Ptr, default: string, ghost a: Ptr, ghost v: Option<Json>)
    returns (r: Option<string>)
    requires match v case None => c == NULL case Some(w) => Represents(h, c, a, w)
    ensures r == match v
                 case None => Some(default)
                 case Some(Str(s)) => Some(CString(s))
                 case Some(_) => None
  {
    if c == NULL {
      return Some(default);
    }
    match h[c].u {
      case PStr(_, buf) =>
        assert buf == v.value.s + [NUL] + [];
        CStringCut(v.value.s, []);
        return Some(CString(buf));
      case _ =>
        return None;
    }
  }

  method GetInt(h: seq<Node>, a: Ptr, name: string, ghost parent: Ptr, ghost v: Json) returns (r: Option<int>)
    requires Represents(h, a, parent, v)
    ensures r == IntMember(v, name)
  {
    var c := GetChild(h, a, name, parent, v);
    return if c == NULL || !h[c].u.PInt? then None else Some(h[c].u.i);
  }

  method GetDouble(h: seq<Node>, a: Ptr, name: string, ghost parent: Ptr, ghost v: Json) returns (r: Option<real>)
    requires Represents(h, a, parent, v)
    ensures r == DoubleMember(v, name)
  {
    var c := GetChild(h, a, name, parent, v);
    return if c == NULL || !h[c].u.PDbl? then None else Some(h[c].u.r);
  }

  /** kibosh_fault_base_parse and the six parsers it chooses from. */
  method ParseFault(h: seq<Node>, a: Ptr, ghost parent: Ptr, ghost v: Json) returns (r: Option<Fault>)
    requires Represents(h, a, parent, v)
    ensures r == FaultOf(v)
  {
    hide Represents, Child;
    var c := GetChild(h, a, "type", parent, v);
    if c == NULL {
      return None;
    }
    StringNode(h, c, a, Child(v, "type").value);
    if !h[c].u.PStr? {
      return None;
    }
    var name := DupString(h, c, "", a, Child(v, "type"));
    c := GetChild(h, a, "prefix", parent, v);
    var prefix := DupString(h, c, "/", a, Child(v, "prefix"));
    c := GetChild(h, a, "suffix", parent, v);
    var suffix := DupString(h, c, "", a, Child(v, "suffix"));
    if prefix.None? || suffix.None? {
      return None;
    }
    r := ParseKind(h, a, name.value, prefix.value, suffix.value, parent, v);
  }

  lemma StringNode(h: seq<Node>, c: Ptr, a: Ptr, w: Json)
    requires Represents(h, c, a, w)
    ensures 0 <= c < |h| && (h[c].u.PStr? <==> w.Str?)
  {
  }

  method ParseKind(h: seq<Node>, a: Ptr, name: string, prefix: string, suffix: string, ghost parent: Ptr, ghost v: Json)
    returns (r: Option<Fault>)
    requires Represents(h, a, parent, v)
    ensures r == WithPaths(v, name, prefix, suffix)
  {
    hide Represents, IntMember, DoubleMember, Wrap32, Unsigned32;
    if name == "unreadable" || name == "unwritable" {
      var code := GetInt(h, a, "code", parent, v);
      if code.None? {
        return None;
      }
      return Some(if name == "unreadable" then Unreadable(prefix, suffix, Wrap32(code.value))
                  else Unwritable(prefix, suffix, Wrap32(code.value)));
    }
    if name == "read_delay" || name == "write_delay" {
      var delay := GetInt(h, a, "delay_ms", parent, v);
      var fraction := GetDouble(h, a, "fraction", parent, v);
      if delay.None? || fraction.None? {
        return None;
      }
      return Some(if name == "read_delay" then ReadDelay(prefix, suffix, Unsigned32(delay.value), fraction.value)
                  else WriteDelay(prefix, suffix, Unsigned32(delay.value), fraction.value));
    }
    if name == "read_corrupt" || name == "write_corrupt" {
      var mode := GetInt(h, a, "mode", parent, v);
      var fraction := GetDouble(h, a, "fraction", parent, v);
      var count := GetInt(h, a, "count", parent, v);
      if mode.None? || fraction.None? || count.None? {
        return None;
      }
      return Some(if name == "read_corrupt" then
                    ReadCorrupt(prefix, suffix, Unsigned32(mode.value), Wrap32(count.value), fraction.value)
                  else WriteCorrupt(prefix, suffix, Unsigned32(mode.value), Wrap32(count.value), fraction.value));
    }
    return None;
  }

  /** fault_array_parse */
  method ParseArray(h: seq<Node>, a: Ptr, ghost parent: Ptr, ghost v: Json) returns (r: Option<seq<Fault>>)
    requires Represents(h, a, parent, v)
    ensures r == if v.Arr? then FaultsOf(v.elems) else None
  {
    if !h[a].u.PArr? {
      return None;
    }
    ghost var vs := v.elems;
    var slots := h[a].u.slots;
    var list := [];
    assert vs[0..] == vs;
    assert FaultsOf(vs).Some? ==> [] + FaultsOf(vs).value == FaultsOf(vs).value;
    for i := 0 to |slots|
      invariant |slots| == |vs| && |list| == i
      invariant FaultsOf(vs) == Prepend(list, FaultsOf(vs[i..]))
    {
      hide Represents, FaultOf;
      assert Represents(h, slots[i], a, vs[i]) by { Element(h, a, parent, v, i); }
      var f := ParseFault(h, slots[i], a, vs[i]);
      assert vs[i..][1..] == vs[i + 1..];
      if f.None? {
        return None;
      }
      PrependOne(list, f.value, FaultsOf(vs[i + 1..]));
      list := list + [f.value];
    }
    assert list + [] == list;
    return Some(list);
  }

  lemma Element(h: seq<Node>, a: Ptr, parent: Ptr, v: Json, i: nat)
    requires Represents(h, a, parent, v) && v.Arr? && i < |v.elems|
    ensures h[a].u.PArr? && i < |h[a].u.slots| && Represents(h, h[a].u.slots[i], a, v.elems[i])
  {
  }

  function Prepend(fs: seq<Fault>, r: Option<seq<Fault>>): Option<seq<Fault>> {
    if r.None? then None else Some(fs + r.value)
  }

  lemma PrependOne(fs: seq<Fault>, f: Fault, r: Option<seq<Fault>>)
    ensures Prepend(fs, if r.None? then None else Some([f] + r.value)) == Prepend(fs + [f], r)
  {
    if r.Some? {
      assert fs + ([f] + r.value) == fs + [f] + r.value;
    }
  }

  /** The faults that a control text configures; None if it is rejected with -EIO. */
  function FaultsParse(str: string): Option<seq<Fault>> {
    match ParseText(str)
    case None => None
    case Some(root) => FaultsOfTree(root)
  }

  /** faults_parse: the list, and every node and buffer of the JSON tree is released once. */
  method ParseFaults(str: string) returns (r: Option<seq<Fault>>, log: seq<JsonFree.Event>)
    ensures r == FaultsParse(str)
    ensures match ParseText(str)
            case None => log == []
            case Some(v) => multiset(log) == multiset(JsonFree.Owned(JsonFreeParsed.ShapeOf(v, 0)))
  {
    hide Represents, Document, FilledTree, FaultsOf;
    var root, heap, freed := JsonParser.ParseEx(str);
    if root == NULL {
      assert ParseText(str).None? by { NullOrNot(str, root, heap); }
      return None, [];
    }
    ghost var v := ParseText(str).value;
    var faults := GetChild(heap, root, "faults", NULL, v);
    if faults == NULL {
      assert Child(v, "faults").None? by { ChildOrNot(heap, root, v, faults); }
      r := Some([]);
    } else {
      r := ParseArray(heap, faults, root, Child(v, "faults").value);
    }
    log := JsonFreeParsed.FreeParsed(heap, v);
  }

  lemma NullOrNot(str: string, root: Ptr, heap: seq<Node>)
    requires root == NULL
    requires ParseText(str).Some? ==> Represents(heap, root, NULL, ParseText(str).value)
    ensures ParseText(str).None?
  {
  }

  lemma ChildOrNot(heap: seq<Node>, root: Ptr, v: Json, c: Ptr)
    requires c == NULL
    requires Child(v, "faults").Some? ==> Represents(heap, c, root, Child(v, "faults").value)
    ensures Child(v, "faults").None?
  {
  }
}
