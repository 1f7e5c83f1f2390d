/**
 Packing evidence into the context a host receives (hooks.rs 1010-1113). The framed context travels as
 one JSON string, which is normalised as a whole: its size is that of the normalised text, for every
 evidence, and `Framing` says when the text is still the frame that was written.
 */
module Evidence {
  import opened Wrappers
  import opened KeyOrder
  import opened JsonValue
  import opened JsonWriter
  import opened Weights
  import Hex
  import JsonSyntax
  import Utf8

  const PROJECTION_LIMIT := 32
  const PROJECTION_BYTE_LIMIT := 128 * 1024
  const EVIDENCE_LABEL := "UNTRUSTED_EVIDENCE_NOT_INSTRUCTIONS"

  datatype Group = Unknown | Fact | Company

  datatype Item = Item(group: Group, value: Value)

  /** The items of a group, in order. */
  function Values(items: seq<Item>, group: Group): seq<Value> {
    if items == [] then []
    else (if items[0].group == group then [items[0].value] else []) + Values(items[1..], group)
  }

  function Document(facts: seq<Value>, unknowns: seq<Value>, company: seq<Value>, omitted: nat): seq<Member<Value>> {
    [Member("label", Str(EVIDENCE_LABEL)), Member("facts", Arr(facts)), Member("unknowns", Arr(unknowns)),
     Member("trusted_company_facts", Arr(company)), Member("omitted_count", Int(omitted))]
  }

  function DocumentOf(items: seq<Item>, omitted: nat): seq<Member<Value>> {
    Document(Values(items, Fact), Values(items, Unknown), Values(items, Company), omitted)
  }

  function Frame(document: string): string {
    EVIDENCE_LABEL + "\n" + Decimal(Utf8.Length(document)) + "\n" + document
  }

  /** `framed_context`. */
  function Framed(members: seq<Member<Value>>, nfc: string -> string): string {
    Frame(Canonical(Obj(members), nfc))
  }

  /** `host_context_size`: the framed context, escaped as it travels. */
  function HostContextSize(members: seq<Member<Value>>, nfc: string -> string): nat {
    Utf8.Length(Canonical(Str(Framed(members, nfc)), nfc))
  }

  predicate Fits(items: seq<Item>, omitted: nat, nfc: string -> string) {
    HostContextSize(DocumentOf(items, omitted), nfc) <= PROJECTION_BYTE_LIMIT
  }

  /** The items kept: each in turn, while there is a place and the context with it still fits, sized
      with the widest omission. */
  function Choose(items: seq<Item>, widest: nat, nfc: string -> string): (kept: seq<Item>)
    ensures |kept| <= |items|
  {
    if items == [] then []
    else
      var before := Choose(items[..|items| - 1], widest, nfc);
      var item := items[|items| - 1];
      if |before| < PROJECTION_LIMIT && Fits(before + [item], widest, nfc) then before + [item] else before
  }

  function Tagged(values: seq<Value>, group: Group): (r: seq<Item>)
    ensures |r| == |values| && forall i :: 0 <= i < |r| ==> r[i] == Item(group, values[i])
  {
    seq(|values|, i requires 0 <= i < |values| => Item(group, values[i]))
  }

  /** Everything offered: unknowns first, then facts, then company facts. */
  function Offered(facts: seq<Value>, unknowns: seq<Value>, company: seq<Value>): seq<Item> {
    Tagged(unknowns, Unknown) + Tagged(facts, Fact) + Tagged(company, Company)
  }

  lemma {:induction false} ValuesConcat(a: seq<Item>, b: seq<Item>, group: Group)
    ensures Values(a + b, group) == Values(a, group) + Values(b, group)
  {
    if a == [] {
      assert a + b == b && [] + Values(b, group) == Values(b, group);
    } else {
      assert (a + b)[1..] == a[1..] + b;
      ValuesConcat(a[1..], b, group);
      var first := if a[0].group == group then [a[0].value] else [];
      assert first + (Values(a[1..], group) + Values(b, group)) == first + Values(a[1..], group) + Values(b, group);
    }
  }

  lemma ValuesPush(items: seq<Item>, item: Item, group: Group)
    ensures Values(items + [item], group) == Values(items, group) + if item.group == group then [item.value] else []
  {
    ValuesConcat(items, [item], group);
    assert [item][1..] == [];
  }

  class BoundedEvidence {
    var facts: seq<Value>
    var unknowns: seq<Value>
    var companyFacts: seq<Value>
    var omitted: nat

    ghost predicate Holds(kept: seq<Item>)
      reads this
    {
      facts == Values(kept, Fact) && unknowns == Values(kept, Unknown) && companyFacts == Values(kept, Company)
    }

    constructor ()
      ensures Holds([]) && omitted == 0
    {
      facts, unknowns, companyFacts, omitted := [], [], [], 0;
    }

    method Push(group: Group, value: Value, ghost kept: seq<Item>)
      requires Holds(kept)
      modifies `facts, `unknowns, `companyFacts
      ensures Holds(kept + [Item(group, value)])
    {
      ValuesPush(kept, Item(group, value), Fact);
      ValuesPush(kept, Item(group, value), Unknown);
      ValuesPush(kept, Item(group, value), Company);
      match group {
        case Unknown => unknowns := unknowns + [value];
        case Fact => facts := facts + [value];
        case Company => companyFacts := companyFacts + [value];
      }
    }

    method Pop(group: Group, ghost kept: seq<Item>, ghost item: Item)
      requires Holds(kept + [item]) && item.group == group
      modifies `facts, `unknowns, `companyFacts
      ensures Holds(kept)
    {
      ValuesPush(kept, item, Fact);
      ValuesPush(kept, item, Unknown);
      ValuesPush(kept, item, Company);
      match group {
        case Unknown => unknowns := unknowns[..|unknowns| - 1];
        case Fact => facts := facts[..|facts| - 1];
        case Company => companyFacts := companyFacts[..|companyFacts| - 1];
      }
    }

    /** The inner loop of `bound_evidence`, over one group. */
    method AddGroup(values: seq<Value>, group: Group, widest: nat, count: nat, nfc: string -> string, ghost before: seq<Item>)
      returns (items: nat)
      requires Stands(before, count, widest, nfc)
      modifies this
      ensures Stands(before + Tagged(values, group), items, widest, nfc)
    {
      hide Choose, HostContextSize, Values;
      items := count;
      ghost var offered := before;
      TaggedFrom(before, values, group, 0);
      for i := 0 to |values|
        invariant Stands(offered, items, widest, nfc)
        invariant offered == before + Tagged(values[..i], group)
      {
        ghost var item := Item(group, values[i]);
        ghost var kept := Choose(offered, widest, nfc);
        TaggedFrom(before, values, group, i + 1);
        ChooseNext(offered, item, widest, nfc);
        offered := offered + [item];
        if items >= PROJECTION_LIMIT {
          omitted := omitted + 1;
          continue;
        }
        Push(group, values[i], kept);
        if HostContextSize(Document(facts, unknowns, companyFacts, widest), nfc) <= PROJECTION_BYTE_LIMIT {
          items := items + 1;
        } else {
          Pop(group, kept, item);
          omitted := omitted + 1;
        }
      }
      assert values[..|values|] == values;
    }

    /** The offered items are sorted into kept ones, `items` of them, and omitted ones. */
    ghost predicate Stands(offered: seq<Item>, items: nat, widest: nat, nfc: string -> string)
      reads this
    {
      Holds(Choose(offered, widest, nfc)) && items == |Choose(offered, widest, nfc)| && omitted == |offered| - items
    }
  }

  lemma TaggedFrom(before: seq<Item>, values: seq<Value>, group: Group, n: nat)
    requires n <= |values|
    ensures n == 0 ==> before + Tagged(values[..n], group) == before
    ensures n > 0 ==> before + Tagged(values[..n], group) == before + Tagged(values[..n - 1], group) + [Item(group, values[n - 1])]
  {
  }

  lemma ChooseNext(offered: seq<Item>, item: Item, widest: nat, nfc: string -> string)
    ensures var before := Choose(offered, widest, nfc);
      Choose(offered + [item], widest, nfc) ==
        if |before| < PROJECTION_LIMIT && Fits(before + [item], widest, nfc) then before + [item] else before
  {
  }

  /** `bound_evidence`. */
  method BoundEvidence(facts: seq<Value>, unknowns: seq<Value>, company: seq<Value>, nfc: string -> string)
    returns (bounded: BoundedEvidence)
    ensures fresh(bounded)
    ensures var offered := Offered(facts, unknowns, company); var kept := Choose(offered, |offered|, nfc);
      bounded.Holds(kept) && bounded.omitted == |offered| - |kept|
  {
    bounded := new BoundedEvidence();
    var widest := |facts| + |unknowns| + |company|;
    ghost var first, second := Tagged(unknowns, Unknown), Tagged(facts, Fact);
    assert [] + first == first;
    assert bounded.Stands([], 0, widest, nfc);
    var items := bounded.AddGroup(unknowns, Unknown, widest, 0, nfc, []);
    assert bounded.Stands(first, items, widest, nfc);
    items := bounded.AddGroup(facts, Fact, widest, items, nfc, first);
    items := bounded.AddGroup(company, Company, widest, items, nfc, first + second);
    assert |Offered(facts, unknowns, company)| == widest;
  }

  // ----- normalization -----

  /** What the model assumes of NFC beyond `NfcLaws`, all of it in Unicode Standard Annex 15: an ASCII
      character is a boundary no composition crosses, ASCII text is normal, and so is any part of a
      normal text. */
  ghost predicate AsciiLaws(nfc: string -> string) {
    && NfcLaws(nfc)
    && (forall a, b {:trigger nfc(a + b)} :: b != "" && (b[0] as int) < 0x80 ==> nfc(a + b) == nfc(a) + nfc(b))
    && (forall s :: Ascii(s) ==> nfc(s) == s)
    && (forall a, b {:trigger nfc(a + b)} :: nfc(a + b) == a + b ==> nfc(a) == a && nfc(b) == b)
  }

  predicate Ascii(text: string) {
    forall i :: 0 <= i < |text| ==> (text[i] as int) < 0x80
  }

  /** A value as the JSON library holds it: a binary float is printed as a number token. */
  predicate Numeric(v: Value) {
    match v
    case Float(token) => JsonSyntax.NumberToken(token)
    case Arr(items) => forall i :: 0 <= i < |items| ==> Numeric(items[i])
    case Obj(members) => forall i :: 0 <= i < |members| ==> Numeric(members[i].value)
    case _ => true
  }

  predicate AllNumeric(items: seq<Item>) {
    forall i :: 0 <= i < |items| ==> Numeric(items[i].value)
  }

  lemma {:induction false} DecimalIsAscii(n: nat)
    ensures Ascii(Decimal(n))
  {
    if n >= 10 {
      DecimalIsAscii(n / 10);
    }
  }

  /** Canonical text begins with an ASCII character. */
  lemma CanonicalHeaded(v: Value, nfc: string -> string)
    requires Numeric(v)
    ensures Headed(Canonical(v, nfc)) && Canonical(v, nfc) != ""
  {
    match v
    case Int(n) => DecimalIsAscii(if n < 0 then -n else n);
    case Float(token) => JsonSyntax.NumberChars(token);
    case _ =>
  }

  // ----- how the size grows -----

  function Escaped(text: string): nat {
    Utf8.Length(QuoteBody(text))
  }

  /** The escaped length of a text as it travels: normalised. */
  function Travels(nfc: string -> string): string -> nat {
    (text: string) => Escaped(nfc(text))
  }

  lemma {:induction false} QuoteConcat(a: string, b: string)
    ensures QuoteBody(a + b) == QuoteBody(a) + QuoteBody(b)
  {
    if a == [] {
      assert a + b == b;
    } else {
      assert (a + b)[1..] == a[1..] + b;
      QuoteConcat(a[1..], b);
    }
  }

  lemma EscapedAdds(a: string, b: string)
    ensures Escaped(a + b) == Escaped(a) + Escaped(b)
  {
    QuoteConcat(a, b);
    Utf8.EncodeConcat(QuoteBody(a), QuoteBody(b));
  }

  lemma HeadedJoins(a: string, b: string)
    requires Headed(a) && Headed(b)
    ensures Headed(a + b)
  {
    if a == "" {
      assert a + b == b;
    }
  }

  lemma LengthAdds()
    ensures Additive(Utf8.Length, Headed)
  {
    forall a, b ensures Utf8.Length(a + b) == Utf8.Length(a) + Utf8.Length(b) {
      Utf8.EncodeConcat(a, b);
    }
    forall a, b | Headed(a) && Headed(b) ensures Headed(a + b) {
      HeadedJoins(a, b);
    }
  }

  lemma TravelsAdds(nfc: string -> string)
    requires AsciiLaws(nfc)
    ensures Additive(Travels(nfc), Headed)
  {
    forall a, b | Headed(b) ensures Travels(nfc)(a + b) == Travels(nfc)(a) + Travels(nfc)(b) {
      if b == "" {
        assert a + b == a && Ascii("");
      } else {
        EscapedAdds(nfc(a), nfc(b));
      }
    }
    forall a, b | Headed(a) && Headed(b) ensures Headed(a + b) {
      HeadedJoins(a, b);
    }
  }

  lemma {:induction false} DigitsWeigh(n: nat)
    ensures Utf8.Length(Decimal(n)) == |Decimal(n)| == Escaped(Decimal(n))
  {
    if n < 10 {
      DigitWeighs(n);
    } else {
      DigitsWeigh(n / 10);
      DigitWeighs(n % 10);
      EscapedAdds(Decimal(n / 10), [Hex.Digit(n % 10)]);
      Utf8.EncodeConcat(Decimal(n / 10), [Hex.Digit(n % 10)]);
    }
  }

  lemma DigitWeighs(n: nat)
    requires n < 10
    ensures Utf8.Length([Hex.Digit(n)]) == 1 == Escaped([Hex.Digit(n)])
  {
    var c := Hex.Digit(n);
    var digit := [c];
    assert digit[1..] == [] && '0' <= c <= '9';
    assert QuoteChar(c) == digit;
    assert QuoteBody(digit) == digit + [] == digit;
    assert Utf8.Encode(digit) == Utf8.EncodeChar(c) + [];
  }

  lemma {:induction false} DigitsGrow(m: nat, n: nat)
    requires m <= n
    ensures |Decimal(m)| <= |Decimal(n)|
  {
    if m >= 10 {
      DigitsGrow(m / 10, n / 10);
    }
  }

  /** Under the same keys, values that weigh no more make an object that weighs no more. */
  ghost predicate Lighter(a: seq<Member<Value>>, b: seq<Member<Value>>, nfc: string -> string, weigh: string -> nat) {
    |a| == |b| && forall i :: 0 <= i < |a| ==>
      && a[i].key == b[i].key && weigh(Canonical(a[i].value, nfc)) <= weigh(Canonical(b[i].value, nfc))
      && Headed(Canonical(a[i].value, nfc)) && Headed(Canonical(b[i].value, nfc))
  }

  lemma {:induction false} MembersLighter(a: seq<Member<Value>>, b: seq<Member<Value>>, nfc: string -> string, weigh: string -> nat)
    requires Additive(weigh, Headed) && Lighter(a, b, nfc, weigh)
    ensures MemberWeight(CanonicalMembers(a, nfc), weigh) <= MemberWeight(CanonicalMembers(b, nfc), weigh)
  {
    if a != [] {
      MembersLighter(a[1..], b[1..], nfc, weigh);
      assert Headed(":");
      Bracketed(Quoted(nfc(a[0].key)), ":", Canonical(a[0].value, nfc), weigh, Headed);
      Bracketed(Quoted(nfc(b[0].key)), ":", Canonical(b[0].value, nfc), weigh, Headed);
      assert CanonicalMembers(a, nfc)[1..] == CanonicalMembers(a[1..], nfc);
      assert CanonicalMembers(b, nfc)[1..] == CanonicalMembers(b[1..], nfc);
    }
  }

  lemma ObjectLighter(a: seq<Member<Value>>, b: seq<Member<Value>>, nfc: string -> string, weigh: string -> nat)
    requires Additive(weigh, Headed) && Lighter(a, b, nfc, weigh) && a != []
    ensures weigh(Canonical(Obj(a), nfc)) <= weigh(Canonical(Obj(b), nfc))
  {
    MembersLighter(a, b, nfc, weigh);
    ObjectWeighs(a, nfc, weigh, Headed);
    ObjectWeighs(b, nfc, weigh, Headed);
  }

  /** What the frame of a document weighs as it travels. */
  lemma FrameWeighs(document: string, nfc: string -> string)
    requires AsciiLaws(nfc) && document != "" && Headed(document)
    ensures Escaped(nfc(Frame(document))) ==
            Travels(nfc)(EVIDENCE_LABEL) + Travels(nfc)("\n") + |Decimal(Utf8.Length(document))| + Travels(nfc)("\n") + Travels(nfc)(document)
  {
    var size := Decimal(Utf8.Length(document));
    TravelsAdds(nfc);
    DigitsWeigh(Utf8.Length(document));
    DecimalIsAscii(Utf8.Length(document));
    assert Headed("\n") && Headed(size);
    Bracketed(EVIDENCE_LABEL, "\n", size, Travels(nfc), Headed);
    Bracketed(EVIDENCE_LABEL + "\n" + size, "\n", document, Travels(nfc), Headed);
    assert Frame(document) == EVIDENCE_LABEL + "\n" + size + "\n" + document;
  }

  lemma QuotedWeighs(text: string)
    ensures Utf8.Length(Quoted(text)) == 2 * Utf8.Length("\"") + Escaped(text)
  {
    Utf8.EncodeConcat("\"" + QuoteBody(text), "\"");
    Utf8.EncodeConcat("\"", QuoteBody(text));
  }

  /** What the size of a context is made of. */
  lemma SizeWeighs(members: seq<Member<Value>>, nfc: string -> string)
    requires AsciiLaws(nfc)
    ensures var document := Canonical(Obj(members), nfc);
      HostContextSize(members, nfc) == 2 * Utf8.Length("\"") + Escaped(nfc(Frame(document))) && document != "" && Headed(document)
  {
    QuotedWeighs(nfc(Frame(Canonical(Obj(members), nfc))));
  }

  lemma SizeGrows(a: seq<Member<Value>>, b: seq<Member<Value>>, nfc: string -> string)
    requires AsciiLaws(nfc) && a != [] && Lighter(a, b, nfc, Utf8.Length) && Lighter(a, b, nfc, Travels(nfc))
    ensures HostContextSize(a, nfc) <= HostContextSize(b, nfc)
  {
    hide AsciiLaws, Lighter, Additive, Frame, Escaped, HostContextSize, Canonical, Headed;
    var x, y := Canonical(Obj(a), nfc), Canonical(Obj(b), nfc);
    LengthAdds();
    TravelsAdds(nfc);
    ObjectLighter(a, b, nfc, Utf8.Length);
    ObjectLighter(a, b, nfc, Travels(nfc));
    DigitsGrow(Utf8.Length(x), Utf8.Length(y));
    SizeWeighs(a, nfc);
    SizeWeighs(b, nfc);
    FrameWeighs(x, nfc);
    FrameWeighs(y, nfc);
  }

  /** Putting more items in between makes every list weigh no less. */
  lemma ListGrows(a: seq<Value>, b: seq<Value>, c: seq<Value>, nfc: string -> string, weigh: string -> nat)
    requires Additive(weigh, Headed) && ItemsOk(a, nfc, Headed) && ItemsOk(b, nfc, Headed) && ItemsOk(c, nfc, Headed)
    ensures weigh(Canonical(Arr(a + c), nfc)) <= weigh(Canonical(Arr(a + b + c), nfc))
  {
    hide Additive, ItemsOk;
    ItemsOkConcat(a, c, nfc, Headed);
    ItemsOkConcat(a, b, nfc, Headed);
    ItemsOkConcat(a + b, c, nfc, Headed);
    ArrayWeighs(a + c, nfc, weigh, Headed);
    ArrayWeighs(a + b + c, nfc, weigh, Headed);
    ItemsJoin(a, c, nfc, weigh, Headed);
    ItemsJoin(a + b, c, nfc, weigh, Headed);
    ItemsJoin(a, b, nfc, weigh, Headed);
  }

  lemma {:induction false} ValuesOk(items: seq<Item>, group: Group, nfc: string -> string)
    requires AllNumeric(items)
    ensures ItemsOk(Values(items, group), nfc, Headed)
  {
    if items != [] {
      ValuesOk(items[1..], group, nfc);
      CanonicalHeaded(items[0].value, nfc);
      var first := if items[0].group == group then [items[0].value] else [];
      ItemsOkConcat(first, Values(items[1..], group), nfc, Headed);
    }
  }

  lemma GroupGrows(a: seq<Item>, b: seq<Item>, c: seq<Item>, group: Group, nfc: string -> string, weigh: string -> nat)
    requires Additive(weigh, Headed) && AllNumeric(a) && AllNumeric(b) && AllNumeric(c)
    ensures weigh(Canonical(Arr(Values(a + c, group)), nfc)) <= weigh(Canonical(Arr(Values(a + b + c, group)), nfc))
  {
    ValuesConcat(a, c, group);
    ValuesConcat(a + b, c, group);
    ValuesConcat(a, b, group);
    ValuesOk(a, group, nfc);
    ValuesOk(b, group, nfc);
    ValuesOk(c, group, nfc);
    ListGrows(Values(a, group), Values(b, group), Values(c, group), nfc, weigh);
  }

  lemma CountGrows(m: nat, n: nat, nfc: string -> string)
    requires AsciiLaws(nfc) && m <= n
    ensures Utf8.Length(Canonical(Int(m), nfc)) <= Utf8.Length(Canonical(Int(n), nfc))
    ensures Travels(nfc)(Canonical(Int(m), nfc)) <= Travels(nfc)(Canonical(Int(n), nfc))
  {
    DigitsWeigh(m);
    DigitsWeigh(n);
    DecimalIsAscii(m);
    DecimalIsAscii(n);
    DigitsGrow(m, n);
  }

  /** A member of a document is no heavier than another's. */
  ghost predicate NoHeavier(a: Value, b: Value, nfc: string -> string, weigh: string -> nat) {
    weigh(Canonical(a, nfc)) <= weigh(Canonical(b, nfc)) && Headed(Canonical(a, nfc)) && Headed(Canonical(b, nfc))
  }

  lemma PartsLighter(facts: seq<Value>, unknowns: seq<Value>, company: seq<Value>, m: nat,
                     moreFacts: seq<Value>, moreUnknowns: seq<Value>, moreCompany: seq<Value>, n: nat, nfc: string -> string, weigh: string -> nat)
    requires NoHeavier(Arr(facts), Arr(moreFacts), nfc, weigh) && NoHeavier(Arr(unknowns), Arr(moreUnknowns), nfc, weigh)
    requires NoHeavier(Arr(company), Arr(moreCompany), nfc, weigh) && NoHeavier(Int(m), Int(n), nfc, weigh)
    ensures Lighter(Document(facts, unknowns, company, m), Document(moreFacts, moreUnknowns, moreCompany, n), nfc, weigh)
  {
    hide Canonical;
    LabelHeaded(nfc);
  }

  lemma LabelHeaded(nfc: string -> string)
    ensures Headed(Canonical(Str(EVIDENCE_LABEL), nfc))
  {
  }

  lemma CountHeaded(n: nat, nfc: string -> string)
    ensures Headed(Canonical(Int(n), nfc))
  {
    DecimalIsAscii(n);
  }

  lemma DocumentLighter(a: seq<Item>, b: seq<Item>, c: seq<Item>, m: nat, n: nat, nfc: string -> string, weigh: string -> nat)
    requires Additive(weigh, Headed) && AllNumeric(a) && AllNumeric(b) && AllNumeric(c)
    requires weigh(Canonical(Int(m), nfc)) <= weigh(Canonical(Int(n), nfc))
    ensures Lighter(DocumentOf(a + c, m), DocumentOf(a + b + c, n), nfc, weigh)
  {
    hide Additive, Values, Lighter, Numeric;
    CountHeaded(m, nfc);
    CountHeaded(n, nfc);
    GroupGrows(a, b, c, Fact, nfc, weigh);
    GroupGrows(a, b, c, Unknown, nfc, weigh);
    GroupGrows(a, b, c, Company, nfc, weigh);
    PartsLighter(Values(a + c, Fact), Values(a + c, Unknown), Values(a + c, Company), m,
                 Values(a + b + c, Fact), Values(a + b + c, Unknown), Values(a + b + c, Company), n, nfc, weigh);
  }

  /** More items and a wider omission never make the context shorter, however it is normalised. */
  lemma ContextGrows(a: seq<Item>, b: seq<Item>, c: seq<Item>, m: nat, n: nat, nfc: string -> string)
    requires AsciiLaws(nfc) && m <= n && AllNumeric(a) && AllNumeric(b) && AllNumeric(c)
    ensures HostContextSize(DocumentOf(a + c, m), nfc) <= HostContextSize(DocumentOf(a + b + c, n), nfc)
  {
    hide AsciiLaws, Travels, Lighter, HostContextSize, Additive;
    LengthAdds();
    TravelsAdds(nfc);
    CountGrows(m, n, nfc);
    DocumentLighter(a, b, c, m, n, nfc, Utf8.Length);
    DocumentLighter(a, b, c, m, n, nfc, Travels(nfc));
    SizeGrows(DocumentOf(a + c, m), DocumentOf(a + b + c, n), nfc);
  }

  // ----- what is kept -----

  /** The kept items are some of the offered ones, in the order they were offered. */
  ghost predicate InOrder(kept: seq<Item>, offered: seq<Item>) {
    kept == [] ||
    (offered != [] &&
      (InOrder(kept, offered[..|offered| - 1]) ||
       (kept[|kept| - 1] == offered[|offered| - 1] && InOrder(kept[..|kept| - 1], offered[..|offered| - 1]))))
  }

  lemma {:induction false} ChosenInOrder(offered: seq<Item>, widest: nat, nfc: string -> string)
    ensures InOrder(Choose(offered, widest, nfc), offered)
    ensures forall x :: x in Choose(offered, widest, nfc) ==> x in offered
    ensures |Choose(offered, widest, nfc)| <= PROJECTION_LIMIT
    decreases |offered|
  {
    if offered != [] {
      var front := offered[..|offered| - 1];
      ChosenInOrder(front, widest, nfc);
      var before, kept := Choose(front, widest, nfc), Choose(offered, widest, nfc);
      if kept != before {
        assert kept[..|kept| - 1] == before;
      }
    }
  }

  /** What is chosen of more begins with what is chosen of less. */
  lemma {:induction false} ChoiceStands(offered: seq<Item>, k: nat, widest: nat, nfc: string -> string)
    requires k <= |offered|
    ensures Choose(offered[..k], widest, nfc) <= Choose(offered, widest, nfc)
    decreases |offered|
  {
    if k == |offered| {
      assert offered[..k] == offered;
    } else {
      var front := offered[..|offered| - 1];
      ChoiceStands(front, k, widest, nfc);
      assert front[..k] == offered[..k];
    }
  }

  lemma {:induction false} ChoiceFits(offered: seq<Item>, widest: nat, nfc: string -> string)
    requires Fits([], widest, nfc)
    ensures Fits(Choose(offered, widest, nfc), widest, nfc)
    decreases |offered|
  {
    if offered != [] {
      ChoiceFits(offered[..|offered| - 1], widest, nfc);
    }
  }

  /** The item at `k` was kept. */
  predicate Taken(offered: seq<Item>, k: nat, widest: nat, nfc: string -> string)
    requires k < |offered|
  {
    |Choose(offered[..k + 1], widest, nfc)| == |Choose(offered[..k], widest, nfc)| + 1
  }

  /** An item was left out only because with it the final context would cross a ceiling. */
  lemma OmittedWouldCross(offered: seq<Item>, k: nat, nfc: string -> string)
    requires AsciiLaws(nfc) && AllNumeric(offered) && k < |offered| && !Taken(offered, k, |offered|, nfc)
    ensures var kept := Choose(offered, |offered|, nfc);
      |kept| == PROJECTION_LIMIT || !Fits(kept + [offered[k]], |offered|, nfc)
  {
    hide Choose, Taken, Fits, AsciiLaws, AllNumeric, Numeric, InOrder;
    var widest := |offered|;
    var kept, before, item := Choose(offered, widest, nfc), Choose(offered[..k], widest, nfc), offered[k];
    ChosenInOrder(offered, widest, nfc);
    ChoiceStands(offered, k, widest, nfc);
    NotTaken(offered, k, widest, nfc);
    assert kept == before + kept[|before|..];
    if |before| < PROJECTION_LIMIT {
      ChosenNumeric(offered, kept);
      assert Numeric(item.value) by { OneNumeric(offered, k); }
      MoreFitsLess(before, kept[|before|..], item, widest, kept, nfc);
    }
  }

  lemma OneNumeric(offered: seq<Item>, k: nat)
    requires AllNumeric(offered) && k < |offered|
    ensures Numeric(offered[k].value)
  {
  }

  /** Why an item was not taken when its turn came. */
  lemma NotTaken(offered: seq<Item>, k: nat, widest: nat, nfc: string -> string)
    requires k < |offered| && !Taken(offered, k, widest, nfc)
    ensures var before := Choose(offered[..k], widest, nfc);
      |before| >= PROJECTION_LIMIT || !Fits(before + [offered[k]], widest, nfc)
  {
    hide Fits;
    assert offered[..k + 1][..k] == offered[..k];
  }

  /** An item that did not fit does not fit with more. */
  lemma MoreFitsLess(before: seq<Item>, more: seq<Item>, item: Item, widest: nat, kept: seq<Item>, nfc: string -> string)
    requires AsciiLaws(nfc) && AllNumeric(kept) && Numeric(item.value) && kept == before + more
    requires !Fits(before + [item], widest, nfc)
    ensures !Fits(kept + [item], widest, nfc)
  {
    hide HostContextSize, DocumentOf, AsciiLaws, Numeric;
    NumericParts(before, more, kept);
    ContextGrows(before, more, [item], widest, widest, nfc);
  }

  lemma ChosenNumeric(offered: seq<Item>, kept: seq<Item>)
    requires AllNumeric(offered) && forall x :: x in kept ==> x in offered
    ensures AllNumeric(kept)
  {
    forall i | 0 <= i < |kept| ensures Numeric(kept[i].value) {
      assert kept[i] in offered;
    }
  }

  lemma NumericParts(a: seq<Item>, b: seq<Item>, whole: seq<Item>)
    requires whole == a + b && AllNumeric(whole)
    ensures AllNumeric(a) && AllNumeric(b)
  {
    assert forall i :: 0 <= i < |a| ==> a[i] == whole[i];
    assert forall i :: 0 <= i < |b| ==> b[i] == whole[|a| + i];
  }

  /** Bounded evidence: at most 32 items, in order; the context with its actual omission fits when the
      empty one does; and whatever was left out would cross a ceiling. */
  lemma EvidenceIsBounded(offered: seq<Item>, nfc: string -> string)
    requires AsciiLaws(nfc) && AllNumeric(offered) && Fits([], |offered|, nfc)
    ensures var kept := Choose(offered, |offered|, nfc);
      && |kept| <= PROJECTION_LIMIT && InOrder(kept, offered)
      && Fits(kept, |offered| - |kept|, nfc)
      && forall k :: 0 <= k < |offered| && !Taken(offered, k, |offered|, nfc) ==>
           |kept| == PROJECTION_LIMIT || !Fits(kept + [offered[k]], |offered|, nfc)
  {
    hide HostContextSize, DocumentOf, Choose, AsciiLaws, Numeric, Taken;
    var kept := Choose(offered, |offered|, nfc);
    ChosenInOrder(offered, |offered|, nfc);
    ChoiceFits(offered, |offered|, nfc);
    assert kept + [] + [] == kept && kept + [] == kept;
    ChosenNumeric(offered, kept);
    ContextGrows(kept, [], [], |offered| - |kept|, |offered|, nfc);
    forall k | 0 <= k < |offered| && !Taken(offered, k, |offered|, nfc)
      ensures |kept| == PROJECTION_LIMIT || !Fits(kept + [offered[k]], |offered|, nfc)
    {
      OmittedWouldCross(offered, k, nfc);
    }
  }

  /** Unknowns are kept before facts, and facts before company facts: what is kept of the first groups does
      not depend on what the later ones hold, but for the width of the omission. */
  lemma EarlierGroupsFirst(facts: seq<Value>, unknowns: seq<Value>, company: seq<Value>, widest: nat, nfc: string -> string)
    ensures var kept := Choose(Offered(facts, unknowns, company), widest, nfc);
      && Choose(Tagged(unknowns, Unknown), widest, nfc) <= kept
      && Choose(Tagged(unknowns, Unknown) + Tagged(facts, Fact), widest, nfc) <= kept
  {
    var offered, n := Offered(facts, unknowns, company), |unknowns|;
    ChoiceStands(offered, n, widest, nfc);
    ChoiceStands(offered, n + |facts|, widest, nfc);
    assert offered[..n] == Tagged(unknowns, Unknown);
    assert offered[..n + |facts|] == Tagged(unknowns, Unknown) + Tagged(facts, Fact);
  }
}
