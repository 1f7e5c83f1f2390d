/**
 What the host reads back of a framed context (hooks.rs 1069-1113). The context travels as one JSON
 string, normalised as a whole, so the host receives `nfc` of it: the frame that was written exactly
 when every text of the evidence is steady. One that is not breaks the frame, as `AFactBreaksTheFrame`
 shows.
 */
module Framing {
  import opened Wrappers
  import opened KeyOrder
  import opened JsonValue
  import opened JsonWriter
  import opened Weights
  import opened Evidence
  import DuplicateKeys
  import Hex
  import JsonParser
  import JsonStrict
  import JsonSyntax
  import TextRule
  import Utf8

  /** A text whose quoted form normalization leaves alone. */
  predicate Steady(text: string, nfc: string -> string) {
    nfc(Quoted(nfc(text))) == Quoted(nfc(text))
  }

  /** Every text and key of a value is steady. */
  predicate SteadyValue(v: Value, nfc: string -> string) {
    match v
    case Str(text) => Steady(text, nfc)
    case Arr(items) => forall i :: 0 <= i < |items| ==> SteadyValue(items[i], nfc)
    case Obj(members) => forall i :: 0 <= i < |members| ==> Steady(members[i].key, nfc) && SteadyValue(members[i].value, nfc)
    case _ => true
  }

  predicate Settled(text: string, nfc: string -> string) {
    nfc(text) == text
  }

  /** Where an ASCII character follows, both sides are normal or neither is the whole. */
  lemma JoinSettles(a: string, b: string, nfc: string -> string)
    requires AsciiLaws(nfc) && Headed(b)
    ensures Settled(a + b, nfc) <==> Settled(a, nfc) && Settled(b, nfc)
  {
    if b == "" {
      assert a + b == a && Ascii("");
    }
  }

  lemma AsciiSettles(text: string, nfc: string -> string)
    requires AsciiLaws(nfc) && Ascii(text)
    ensures Settled(text, nfc)
  {
  }

  ghost predicate AllSettled(parts: seq<string>, nfc: string -> string) {
    forall i :: 0 <= i < |parts| ==> Settled(parts[i], nfc)
  }

  lemma {:induction false} CommasHeaded(parts: seq<string>)
    requires AllOk(parts, Headed)
    ensures Headed(Commas(parts))
  {
    if |parts| > 1 {
      CommasHeaded(parts[1..]);
      HeadedJoins(parts[0], "," + Commas(parts[1..]));
      assert parts[0] + "," + Commas(parts[1..]) == parts[0] + ("," + Commas(parts[1..]));
    }
  }

  lemma {:induction false} CommasSettle(parts: seq<string>, nfc: string -> string)
    requires AsciiLaws(nfc) && AllOk(parts, Headed)
    ensures Settled(Commas(parts), nfc) <==> AllSettled(parts, nfc)
  {
    if parts == [] {
      AsciiSettles("", nfc);
    } else if |parts| > 1 {
      hide AsciiLaws, Settled;
      var rest := parts[1..];
      CommasSettle(rest, nfc);
      CommasHeaded(rest);
      AsciiSettles(",", nfc);
      JoinSettles(parts[0], ",", nfc);
      JoinSettles(parts[0] + ",", Commas(rest), nfc);
      assert AllSettled(parts, nfc) <==> Settled(parts[0], nfc) && AllSettled(rest, nfc) by {
        assert forall i :: 0 < i < |parts| ==> parts[i] == rest[i - 1];
        assert forall i :: 0 <= i < |rest| ==> rest[i] == parts[i + 1];
      }
    }
  }

  lemma BracketsSettle(open: string, inside: string, close: string, nfc: string -> string)
    requires AsciiLaws(nfc) && Ascii(open) && Headed(inside) && Ascii(close)
    ensures Settled(open + inside + close, nfc) <==> Settled(inside, nfc)
  {
    hide AsciiLaws, Settled;
    AsciiSettles(open, nfc);
    AsciiSettles(close, nfc);
    JoinSettles(open, inside, nfc);
    JoinSettles(open + inside, close, nfc);
  }

  // ----- a value -----

  ghost predicate EachSettled(members: seq<Member<string>>, nfc: string -> string) {
    forall m :: m in members ==> Settled(Quoted(m.key), nfc) && Settled(m.value, nfc)
  }

  lemma MemberSettles(m: Member<string>, nfc: string -> string)
    requires AsciiLaws(nfc) && Headed(m.value)
    ensures Settled(Quoted(m.key) + ":" + m.value, nfc) <==> Settled(Quoted(m.key), nfc) && Settled(m.value, nfc)
  {
    hide AsciiLaws, Settled;
    AsciiSettles(":", nfc);
    JoinSettles(Quoted(m.key), ":", nfc);
    JoinSettles(Quoted(m.key) + ":", m.value, nfc);
  }

  ghost predicate ValuesHeaded(members: seq<Member<string>>) {
    forall m :: m in members ==> Headed(m.value)
  }

  lemma {:induction false} MemberTextsSettle(members: seq<Member<string>>, nfc: string -> string)
    requires AsciiLaws(nfc) && ValuesHeaded(members)
    ensures AllSettled(MemberTexts(members), nfc) <==> EachSettled(members, nfc)
  {
    if members != [] {
      hide AsciiLaws, Settled;
      var rest, texts := members[1..], MemberTexts(members);
      assert forall m :: m in rest ==> m in members;
      MemberTextsSettle(rest, nfc);
      MemberSettles(members[0], nfc);
      assert AllSettled(texts, nfc) <==> Settled(texts[0], nfc) && AllSettled(MemberTexts(rest), nfc) by {
        assert forall i :: 0 < i < |texts| ==> texts[i] == MemberTexts(rest)[i - 1];
        assert forall i :: 0 <= i < |rest| ==> MemberTexts(rest)[i] == texts[i + 1];
      }
      assert forall m :: m in members <==> m == members[0] || m in rest;
    }
  }

  lemma ObjectSettles(members: seq<Member<string>>, nfc: string -> string)
    requires AsciiLaws(nfc) && ValuesHeaded(members)
    ensures Settled("{" + Commas(MemberTexts(Sort(members))) + "}", nfc) <==> EachSettled(members, nfc)
  {
    hide AsciiLaws, Settled;
    var sorted := Sort(members);
    SameMembers(members);
    TextsAreHeaded(sorted);
    CommasHeaded(MemberTexts(sorted));
    CommasSettle(MemberTexts(sorted), nfc);
    MemberTextsSettle(sorted, nfc);
    BracketsSettle("{", Commas(MemberTexts(sorted)), "}", nfc);
  }

  lemma SameMembers(members: seq<Member<string>>)
    ensures forall m :: m in Sort(members) <==> m in members
  {
    SortOrders(members);
    forall m ensures m in Sort(members) <==> m in members {
      assert m in Sort(members) <==> m in multiset(Sort(members));
    }
  }

  /** Canonical text is left alone by normalization exactly when every text it quotes is. */
  lemma {:induction false} CanonicalSettles(v: Value, nfc: string -> string)
    requires AsciiLaws(nfc) && Numeric(v)
    ensures Settled(Canonical(v, nfc), nfc) <==> SteadyValue(v, nfc)
    decreases v, 1
  {
    match v
    case Int(n) => {
      DecimalIsAscii(if n < 0 then -n else n);
      AsciiSettles(Canonical(v, nfc), nfc);
    }
    case Float(token) => {
      JsonSyntax.NumberChars(token);
      AsciiSettles(token, nfc);
    }
    case Str(_) =>
    case Arr(items) => {
      ItemsSettle(items, nfc);
      CommasHeaded(CanonicalItems(items, nfc));
      CommasSettle(CanonicalItems(items, nfc), nfc);
      BracketsSettle("[", Commas(CanonicalItems(items, nfc)), "]", nfc);
    }
    case Obj(members) => {
      MembersSettle(members, nfc);
      ObjectSettles(CanonicalMembers(members, nfc), nfc);
    }
    case _ => AsciiSettles(Canonical(v, nfc), nfc);
  }

  ghost predicate SteadyValues(values: seq<Value>, nfc: string -> string) {
    forall i :: 0 <= i < |values| ==> SteadyValue(values[i], nfc)
  }

  lemma SteadyStep(first: Value, rest: seq<Value>, nfc: string -> string)
    ensures SteadyValues([first] + rest, nfc) <==> SteadyValue(first, nfc) && SteadyValues(rest, nfc)
  {
    hide SteadyValue;
    var all := [first] + rest;
    assert all[0] == first;
    assert forall i :: 0 <= i < |rest| ==> rest[i] == all[i + 1];
  }

  lemma PartsStep(first: string, rest: seq<string>, nfc: string -> string)
    ensures AllSettled([first] + rest, nfc) <==> Settled(first, nfc) && AllSettled(rest, nfc)
    ensures AllOk([first] + rest, Headed) <==> Headed(first) && AllOk(rest, Headed)
  {
    hide Settled, Headed;
    var all := [first] + rest;
    assert all[0] == first;
    assert forall i :: 0 <= i < |rest| ==> rest[i] == all[i + 1];
  }

  lemma {:induction false} ItemsSettle(items: seq<Value>, nfc: string -> string)
    requires AsciiLaws(nfc) && forall i :: 0 <= i < |items| ==> Numeric(items[i])
    ensures AllSettled(CanonicalItems(items, nfc), nfc) <==> SteadyValues(items, nfc)
    ensures AllOk(CanonicalItems(items, nfc), Headed)
    decreases items, 0
  {
    if items != [] {
      hide AsciiLaws, Settled, Canonical, SteadyValue, Headed, AllSettled, AllOk, SteadyValues, Numeric;
      var rest := items[1..];
      assert forall i :: 0 <= i < |rest| ==> rest[i] == items[i + 1];
      CanonicalSettles(items[0], nfc);
      CanonicalHeaded(items[0], nfc);
      ItemsSettle(rest, nfc);
      PartsStep(Canonical(items[0], nfc), CanonicalItems(rest, nfc), nfc);
      SteadyStep(items[0], rest, nfc);
      assert items == [items[0]] + rest;
    }
  }

  lemma {:induction false} MembersSettle(members: seq<Member<Value>>, nfc: string -> string)
    requires AsciiLaws(nfc) && forall i :: 0 <= i < |members| ==> Numeric(members[i].value)
    ensures EachSettled(CanonicalMembers(members, nfc), nfc) <==>
            forall i :: 0 <= i < |members| ==> Steady(members[i].key, nfc) && SteadyValue(members[i].value, nfc)
    ensures ValuesHeaded(CanonicalMembers(members, nfc))
    decreases members, 0
  {
    if members != [] {
      hide AsciiLaws, Canonical, SteadyValue, Headed, Quoted;
      var m, rest, texts := members[0], members[1..], CanonicalMembers(members, nfc);
      CanonicalSettles(m.value, nfc);
      CanonicalHeaded(m.value, nfc);
      MembersSettle(rest, nfc);
      assert texts == [Member(nfc(m.key), Canonical(m.value, nfc))] + CanonicalMembers(rest, nfc);
      assert forall t :: t in texts <==> t == texts[0] || t in CanonicalMembers(rest, nfc);
      assert forall i :: 0 < i < |members| ==> members[i] == rest[i - 1];
      assert forall i :: 0 <= i < |rest| ==> rest[i] == members[i + 1];
    }
  }

  // ----- the frame -----

  /** What the host reads back of the context. */
  function Received(members: seq<Member<Value>>, nfc: string -> string): string {
    nfc(Framed(members, nfc))
  }

  /** The size bounded is that of a JSON string which reads as what the host receives. */
  lemma SizeIsOfTheString(members: seq<Member<Value>>, nfc: string -> string) returns (raw: string)
    ensures JsonSyntax.RawString(raw) && JsonParser.Decode(raw) == Some(Received(members, nfc))
    ensures HostContextSize(members, nfc) == Utf8.Length("\"" + raw + "\"")
  {
    raw := QuoteBody(Received(members, nfc));
    JsonStrict.QuoteIsRaw(Received(members, nfc));
    JsonStrict.QuoteDecodes(Received(members, nfc));
  }

  lemma FrameSettles(document: string, nfc: string -> string)
    requires AsciiLaws(nfc) && Headed(document)
    ensures Settled(Frame(document), nfc) <==> Settled(document, nfc)
  {
    hide AsciiLaws, Settled;
    var head := EVIDENCE_LABEL + "\n" + Decimal(Utf8.Length(document)) + "\n";
    DecimalIsAscii(Utf8.Length(document));
    AsciiSettles(head, nfc);
    assert Frame(document) == head + document;
    JoinSettles(head, document, nfc);
  }

  ghost predicate SteadyItems(items: seq<Item>, nfc: string -> string) {
    forall i :: 0 <= i < |items| ==> SteadyValue(items[i].value, nfc)
  }

  lemma {:induction false} ValuesSteady(items: seq<Item>, nfc: string -> string)
    ensures SteadyItems(items, nfc) <==>
      SteadyValues(Values(items, Fact), nfc) && SteadyValues(Values(items, Unknown), nfc) && SteadyValues(Values(items, Company), nfc)
  {
    if items != [] {
      hide SteadyValue;
      var rest := items[1..];
      ValuesSteady(rest, nfc);
      ValuesStep(items, Fact, nfc);
      ValuesStep(items, Unknown, nfc);
      ValuesStep(items, Company, nfc);
      assert forall i :: 0 < i < |items| ==> items[i] == rest[i - 1];
      assert forall i :: 0 <= i < |rest| ==> rest[i] == items[i + 1];
    }
  }

  lemma ValuesStep(items: seq<Item>, group: Group, nfc: string -> string)
    requires items != []
    ensures SteadyValues(Values(items, group), nfc) <==>
            (items[0].group == group ==> SteadyValue(items[0].value, nfc)) && SteadyValues(Values(items[1..], group), nfc)
  {
    hide SteadyValue;
    var rest := Values(items[1..], group);
    if items[0].group == group {
      assert Values(items, group) == [items[0].value] + rest;
      SteadyStep(items[0].value, rest, nfc);
    } else {
      assert Values(items, group) == [] + rest == rest;
    }
  }

  lemma {:induction false} ValuesNumeric(items: seq<Item>, group: Group)
    requires AllNumeric(items)
    ensures forall i :: 0 <= i < |Values(items, group)| ==> Numeric(Values(items, group)[i])
  {
    if items != [] {
      ValuesNumeric(items[1..], group);
      var first := if items[0].group == group then [items[0].value] else [];
      assert Values(items, group) == first + Values(items[1..], group);
    }
  }

  lemma KeySteady(key: string, nfc: string -> string)
    requires AsciiLaws(nfc) && forall i :: 0 <= i < |key| ==> 'A' <= key[i] <= 'Z' || 'a' <= key[i] <= 'z' || key[i] == '_'
    ensures Steady(key, nfc)
  {
    WordQuotes(key);
    assert Ascii(Quoted(key));
  }

  lemma {:induction false} WordQuotes(text: string)
    requires forall i :: 0 <= i < |text| ==> 'A' <= text[i] <= 'Z' || 'a' <= text[i] <= 'z' || text[i] == '_'
    ensures QuoteBody(text) == text
  {
    if text != [] {
      WordQuotes(text[1..]);
    }
  }

  lemma DocumentSteady(items: seq<Item>, omitted: nat, nfc: string -> string)
    requires AsciiLaws(nfc)
    ensures SteadyValue(Obj(DocumentOf(items, omitted)), nfc) <==> SteadyItems(items, nfc)
  {
    hide AsciiLaws, Steady, Values;
    KeySteady("label", nfc);
    KeySteady("facts", nfc);
    KeySteady("unknowns", nfc);
    KeySteady("trusted_company_facts", nfc);
    KeySteady("omitted_count", nfc);
    KeySteady(EVIDENCE_LABEL, nfc);
    ValuesSteady(items, nfc);
    FiveSteady(Values(items, Fact), Values(items, Unknown), Values(items, Company), omitted, nfc);
  }

  lemma FiveSteady(facts: seq<Value>, unknowns: seq<Value>, company: seq<Value>, omitted: nat, nfc: string -> string)
    requires Steady("label", nfc) && Steady("facts", nfc) && Steady("unknowns", nfc) && Steady("trusted_company_facts", nfc)
    requires Steady("omitted_count", nfc) && Steady(EVIDENCE_LABEL, nfc)
    ensures SteadyValue(Obj(Document(facts, unknowns, company, omitted)), nfc) <==>
      SteadyValues(facts, nfc) && SteadyValues(unknowns, nfc) && SteadyValues(company, nfc)
  {
    hide Steady;
    var members := Document(facts, unknowns, company, omitted);
    assert SteadyValue(members[0].value, nfc) && SteadyValue(members[4].value, nfc);
    assert SteadyValue(members[1].value, nfc) <==> SteadyValues(facts, nfc);
    assert SteadyValue(members[2].value, nfc) <==> SteadyValues(unknowns, nfc);
    assert SteadyValue(members[3].value, nfc) <==> SteadyValues(company, nfc);
  }

  /** The host receives the frame that was written exactly when every text and key of the evidence is
      steady, whatever the count. */
  lemma FrameArrivesExactly(items: seq<Item>, omitted: nat, nfc: string -> string)
    requires AsciiLaws(nfc) && AllNumeric(items)
    ensures Received(DocumentOf(items, omitted), nfc) == Framed(DocumentOf(items, omitted), nfc) <==> SteadyItems(items, nfc)
  {
    hide AsciiLaws, SteadyValue, Canonical;
    var members := DocumentOf(items, omitted);
    DocumentNumeric(items, omitted);
    CanonicalHeaded(Obj(members), nfc);
    CanonicalSettles(Obj(members), nfc);
    DocumentSteady(items, omitted, nfc);
    FrameSettles(Canonical(Obj(members), nfc), nfc);
  }

  lemma DocumentNumeric(items: seq<Item>, omitted: nat)
    requires AllNumeric(items)
    ensures Numeric(Obj(DocumentOf(items, omitted)))
  {
    ValuesNumeric(items, Fact);
    ValuesNumeric(items, Unknown);
    ValuesNumeric(items, Company);
    var members := DocumentOf(items, omitted);
    assert Numeric(members[1].value) && Numeric(members[2].value) && Numeric(members[3].value);
  }
}
