/** The canonical writer as the source runs it (json.rs 85-131): loops that push onto one output. */
module JsonWriting {
  import opened KeyOrder
  import opened JsonValue
  import opened JsonWriter

  /** An object's entries as they are sorted: normalised keys beside the values. */
  function Entries(members: seq<Member<Value>>, nfc: string -> string): (r: seq<Member<Value>>)
    ensures |r| == |members|
    ensures forall i :: 0 <= i < |r| ==> r[i] == Member(nfc(members[i].key), members[i].value)
  {
    seq(|members|, i requires 0 <= i < |members| => Member(nfc(members[i].key), members[i].value))
  }

  function Texts(entries: seq<Member<Value>>, nfc: string -> string): (r: seq<Member<string>>)
    ensures |r| == |entries|
    ensures forall i :: 0 <= i < |r| ==> r[i] == Member(entries[i].key, Canonical(entries[i].value, nfc))
  {
    seq(|entries|, i requires 0 <= i < |entries| => Member(entries[i].key, Canonical(entries[i].value, nfc)))
  }

  lemma {:induction false} TextsOfEntries(members: seq<Member<Value>>, nfc: string -> string)
    ensures Texts(Entries(members, nfc), nfc) == CanonicalMembers(members, nfc)
  {
    if members != [] {
      TextsOfEntries(members[1..], nfc);
      assert Texts(Entries(members, nfc), nfc)[1..] == Texts(Entries(members[1..], nfc), nfc);
      assert CanonicalMembers(members, nfc)[1..] == CanonicalMembers(members[1..], nfc);
    }
  }

  lemma {:induction false} InsertTexts(m: Member<Value>, sorted: seq<Member<Value>>, nfc: string -> string)
    ensures Texts(Insert(m, sorted), nfc) == Insert(Member(m.key, Canonical(m.value, nfc)), Texts(sorted, nfc))
  {
    if sorted == [] || !KeyLess(sorted[0].key, m.key) {
    } else {
      InsertTexts(m, sorted[1..], nfc);
      assert Texts(sorted, nfc)[1..] == Texts(sorted[1..], nfc);
      assert Texts(Insert(m, sorted), nfc)[1..] == Texts(Insert(m, sorted[1..]), nfc);
    }
  }

  lemma {:induction false} SortTexts(entries: seq<Member<Value>>, nfc: string -> string)
    ensures Texts(Sort(entries), nfc) == Sort(Texts(entries, nfc))
  {
    if entries != [] {
      SortTexts(entries[1..], nfc);
      InsertTexts(entries[0], Sort(entries[1..]), nfc);
      assert Texts(entries, nfc)[1..] == Texts(entries[1..], nfc);
    }
  }

  lemma {:induction false} CommasPush(parts: seq<string>, part: string)
    ensures Commas(parts + [part]) == if parts == [] then part else Commas(parts) + "," + part
  {
    if parts == [] {
      assert parts + [part] == [part];
    } else {
      assert (parts + [part])[1..] == parts[1..] + [part];
      CommasPush(parts[1..], part);
      if |parts| > 1 {
        assert parts[0] + "," + (Commas(parts[1..]) + "," + part) == parts[0] + "," + Commas(parts[1..]) + "," + part;
      }
    }
  }

  /** One more part on the output, after a comma when it is not the first. */
  lemma PartWritten(start: string, parts: seq<string>, i: nat)
    requires i < |parts|
    ensures start + Commas(parts[..i + 1]) ==
            (if i > 0 then start + Commas(parts[..i]) + "," else start + Commas(parts[..i])) + parts[i]
  {
    assert parts[..i + 1] == parts[..i] + [parts[i]];
    CommasPush(parts[..i], parts[i]);
  }

  lemma {:induction false} ItemTexts(items: seq<Value>, nfc: string -> string, i: nat)
    requires i < |items|
    ensures CanonicalItems(items, nfc)[i] == Canonical(items[i], nfc)
  {
    if i > 0 {
      ItemTexts(items[1..], nfc, i - 1);
    }
  }

  lemma {:induction false} MemberText(members: seq<Member<string>>, i: nat)
    requires i < |members|
    ensures MemberTexts(members)[i] == Quoted(members[i].key) + ":" + members[i].value
  {
    if i > 0 {
      MemberText(members[1..], i - 1);
    }
  }

  /** Sorting only moves entries: each value is one of the object's. */
  lemma EntryOf(members: seq<Member<Value>>, nfc: string -> string, entry: Member<Value>) returns (k: nat)
    requires entry in Sort(Entries(members, nfc))
    ensures k < |members| && members[k].value == entry.value
  {
    var entries := Entries(members, nfc);
    SortOrders(entries);
    assert entry in multiset(Sort(entries));
    k :| 0 <= k < |entries| && entries[k] == entry;
  }

  lemma Ended(start: string, inside: string, out: string, open: string, close: string)
    requires start == out + open
    ensures start + inside + close == out + (open + inside + close)
  {
  }

  /** `canonical_unchecked`. */
  method CanonicalUnchecked(v: Value, nfc: string -> string, out: string) returns (r: string)
    ensures r == out + Canonical(v, nfc)
    decreases v, 1
  {
    match v {
      case Null => r := out + "null";
      case Bool(b) => r := out + (if b then "true" else "false");
      case Int(n) => r := out + IntText(n);
      case Float(token) => r := out + token;
      case Str(text) => r := WriteString(nfc(text), out);
      case Arr(items) => r := WriteItems(v, items, nfc, out);
      case Obj(members) => r := WriteMembers(v, members, nfc, out);
    }
  }

  method WriteItems(v: Value, items: seq<Value>, nfc: string -> string, out: string) returns (r: string)
    requires v == Arr(items)
    ensures r == out + Canonical(v, nfc)
    decreases v, 0
  {
    ghost var parts := CanonicalItems(items, nfc);
    ghost var start := out + "[";
    r := out + "[";
    assert parts[..0] == [] && start + "" == start;
    for i := 0 to |items|
      invariant r == start + Commas(parts[..i])
    {
      ItemTexts(items, nfc, i);
      PartWritten(start, parts, i);
      if i > 0 {
        r := r + ",";
      }
      r := CanonicalUnchecked(items[i], nfc, r);
    }
    assert parts[..|items|] == parts;
    Ended(start, Commas(parts), out, "[", "]");
    r := r + "]";
  }

  method WriteMembers(v: Value, members: seq<Member<Value>>, nfc: string -> string, out: string) returns (r: string)
    requires v == Obj(members)
    ensures r == out + Canonical(v, nfc)
    decreases v, 0
  {
    var entries := Sort(Entries(members, nfc));
    ghost var parts := MemberTexts(Texts(entries, nfc));
    ghost var start := out + "{";
    r := out + "{";
    assert parts[..0] == [] && start + "" == start;
    for i := 0 to |entries|
      invariant r == start + Commas(parts[..i])
    {
      ghost var k := EntryOf(members, nfc, entries[i]);
      MemberText(Texts(entries, nfc), i);
      PartWritten(start, parts, i);
      if i > 0 {
        r := r + ",";
      }
      ghost var before := r;
      r := WriteString(entries[i].key, r);
      r := r + ":";
      r := CanonicalUnchecked(entries[i].value, nfc, r);
      Grouped(before, Quoted(entries[i].key), Canonical(entries[i].value, nfc));
    }
    assert parts[..|entries|] == parts;
    SortTexts(Entries(members, nfc), nfc);
    TextsOfEntries(members, nfc);
    Ended(start, Commas(parts), out, "{", "}");
    r := r + "}";
  }

  lemma Grouped(a: string, b: string, c: string)
    ensures a + b + ":" + c == a + (b + ":" + c)
  {
  }
}
