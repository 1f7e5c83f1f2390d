/**
 How the length of canonical text comes from its parts, for any measure that adds up over concatenation,
 be it everywhere or only where what follows begins with an ASCII character.
 */
module Weights {
  import opened KeyOrder
  import opened JsonValue
  import opened JsonWriter

  /** Text that begins with an ASCII character, or is empty. */
  predicate Headed(text: string) {
    text == "" || (text[0] as int) < 0x80
  }

  predicate Anything(text: string) {
    true
  }

  /** A measure that adds up wherever what follows is `ok`, which headed text is. */
  ghost predicate Additive(weigh: string -> nat, ok: string -> bool) {
    && (forall s :: Headed(s) ==> ok(s))
    && (forall a, b {:trigger ok(a + b)} :: ok(a) && ok(b) ==> ok(a + b))
    && (forall a, b {:trigger weigh(a + b)} :: ok(b) ==> weigh(a + b) == weigh(a) + weigh(b))
  }

  ghost predicate AllOk(parts: seq<string>, ok: string -> bool) {
    forall i :: 0 <= i < |parts| ==> ok(parts[i])
  }

  /** The items' canonical texts are `ok` to follow other text. */
  ghost predicate ItemsOk(items: seq<Value>, nfc: string -> string, ok: string -> bool) {
    forall i :: 0 <= i < |items| ==> ok(Canonical(items[i], nfc))
  }

  lemma {:induction false} ItemsAllOk(items: seq<Value>, nfc: string -> string, ok: string -> bool)
    requires ItemsOk(items, nfc, ok)
    ensures AllOk(CanonicalItems(items, nfc), ok)
  {
    if items != [] {
      ItemsAllOk(items[1..], nfc, ok);
      assert forall i :: 0 < i < |items| ==> CanonicalItems(items, nfc)[i] == CanonicalItems(items[1..], nfc)[i - 1];
    }
  }

  lemma {:induction false} CommasOk(parts: seq<string>, weigh: string -> nat, ok: string -> bool)
    requires Additive(weigh, ok) && AllOk(parts, ok)
    ensures ok(Commas(parts))
  {
    assert Headed("") && Headed(",");
    if |parts| > 1 {
      CommasOk(parts[1..], weigh, ok);
      assert ok(parts[0] + ",");
      assert ok((parts[0] + ",") + Commas(parts[1..]));
    }
  }

  lemma Nothing(weigh: string -> nat, ok: string -> bool)
    requires Additive(weigh, ok)
    ensures weigh("") == 0
  {
    assert Headed("") && "" + "" == "";
  }

  /** Each part and a comma. */
  function Spread(parts: seq<string>, weigh: string -> nat): nat {
    if parts == [] then 0 else weigh(parts[0]) + weigh(",") + Spread(parts[1..], weigh)
  }

  lemma {:induction false} CommasWeigh(parts: seq<string>, weigh: string -> nat, ok: string -> bool)
    requires Additive(weigh, ok) && AllOk(parts, ok) && parts != []
    ensures weigh(Commas(parts)) + weigh(",") == Spread(parts, weigh)
  {
    if |parts| > 1 {
      CommasWeigh(parts[1..], weigh, ok);
      CommasOk(parts[1..], weigh, ok);
      assert Headed(",");
      assert Commas(parts) == parts[0] + "," + Commas(parts[1..]);
    } else {
      assert parts[1..] == [];
    }
  }

  lemma {:induction false} SpreadConcat(a: seq<string>, b: seq<string>, weigh: string -> nat)
    ensures Spread(a + b, weigh) == Spread(a, weigh) + Spread(b, weigh)
  {
    if a == [] {
      assert a + b == b;
    } else {
      assert (a + b)[1..] == a[1..] + b;
      SpreadConcat(a[1..], b, weigh);
    }
  }

  // ----- objects -----

  function MemberWeight(members: seq<Member<string>>, weigh: string -> nat): nat {
    if members == [] then 0
    else weigh(Quoted(members[0].key) + ":" + members[0].value) + weigh(",") + MemberWeight(members[1..], weigh)
  }

  lemma {:induction false} MemberTextsWeigh(members: seq<Member<string>>, weigh: string -> nat)
    ensures Spread(MemberTexts(members), weigh) == MemberWeight(members, weigh)
  {
    if members != [] {
      MemberTextsWeigh(members[1..], weigh);
      assert MemberTexts(members)[1..] == MemberTexts(members[1..]);
    }
  }

  lemma {:induction false} InsertWeigh(m: Member<string>, sorted: seq<Member<string>>, weigh: string -> nat)
    ensures MemberWeight(Insert(m, sorted), weigh) ==
            weigh(Quoted(m.key) + ":" + m.value) + weigh(",") + MemberWeight(sorted, weigh)
  {
    if sorted == [] || !KeyLess(sorted[0].key, m.key) {
      assert ([m] + sorted)[1..] == sorted;
    } else {
      InsertWeigh(m, sorted[1..], weigh);
      var tail := Insert(m, sorted[1..]);
      assert ([sorted[0]] + tail)[1..] == tail;
    }
  }

  lemma {:induction false} SortWeigh(members: seq<Member<string>>, weigh: string -> nat)
    ensures MemberWeight(Sort(members), weigh) == MemberWeight(members, weigh)
  {
    if members != [] {
      SortWeigh(members[1..], weigh);
      InsertWeigh(members[0], Sort(members[1..]), weigh);
    }
  }

  /** The text of an object weighs what its members weigh, in whatever order. */
  lemma ObjectWeighs(members: seq<Member<Value>>, nfc: string -> string, weigh: string -> nat, ok: string -> bool)
    requires Additive(weigh, ok) && members != []
    ensures weigh(Canonical(Obj(members), nfc)) + weigh(",") ==
            weigh("{") + weigh("}") + MemberWeight(CanonicalMembers(members, nfc), weigh)
  {
    var sorted := Sort(CanonicalMembers(members, nfc));
    SortWeigh(CanonicalMembers(members, nfc), weigh);
    MemberTextsWeigh(sorted, weigh);
    TextsAreHeaded(sorted);
    assert Headed("}");
    CommasWeigh(MemberTexts(sorted), weigh, ok);
    CommasOk(MemberTexts(sorted), weigh, ok);
    Bracketed("{", Commas(MemberTexts(sorted)), "}", weigh, ok);
  }

  lemma {:induction false} TextsAreHeaded(members: seq<Member<string>>)
    ensures AllOk(MemberTexts(members), Headed)
  {
    if members != [] {
      TextsAreHeaded(members[1..]);
    }
  }

  lemma Bracketed(open: string, inside: string, close: string, weigh: string -> nat, ok: string -> bool)
    requires Additive(weigh, ok) && ok(inside) && ok(close)
    ensures weigh(open + inside + close) == weigh(open) + weigh(inside) + weigh(close)
  {
  }

  // ----- arrays -----

  function ItemsWeight(items: seq<Value>, nfc: string -> string, weigh: string -> nat): nat {
    weigh(Commas(CanonicalItems(items, nfc)))
  }

  lemma ArrayWeighs(items: seq<Value>, nfc: string -> string, weigh: string -> nat, ok: string -> bool)
    requires Additive(weigh, ok) && ItemsOk(items, nfc, ok)
    ensures weigh(Canonical(Arr(items), nfc)) == weigh("[") + ItemsWeight(items, nfc, weigh) + weigh("]")
  {
    ItemsAllOk(items, nfc, ok);
    CommasOk(CanonicalItems(items, nfc), weigh, ok);
    assert Headed("]");
    Bracketed("[", Commas(CanonicalItems(items, nfc)), "]", weigh, ok);
  }

  lemma {:induction false} ItemsConcat(a: seq<Value>, b: seq<Value>, nfc: string -> string)
    ensures CanonicalItems(a + b, nfc) == CanonicalItems(a, nfc) + CanonicalItems(b, nfc)
  {
    if a == [] {
      assert a + b == b;
    } else {
      assert (a + b)[1..] == a[1..] + b;
      ItemsConcat(a[1..], b, nfc);
    }
  }

  /** Two lists side by side weigh what each weighs, and the comma between them. */
  lemma ItemsJoin(a: seq<Value>, b: seq<Value>, nfc: string -> string, weigh: string -> nat, ok: string -> bool)
    requires Additive(weigh, ok) && ItemsOk(a, nfc, ok) && ItemsOk(b, nfc, ok)
    ensures ItemsWeight(a + b, nfc, weigh) ==
            ItemsWeight(a, nfc, weigh) + ItemsWeight(b, nfc, weigh) + if a != [] && b != [] then weigh(",") else 0
  {
    hide Additive, ItemsOk, Commas;
    Nothing(weigh, ok);
    ItemsConcat(a, b, nfc);
    ItemsOkConcat(a, b, nfc, ok);
    SpreadConcat(CanonicalItems(a, nfc), CanonicalItems(b, nfc), weigh);
    SpreadItems(a, nfc, weigh, ok);
    SpreadItems(b, nfc, weigh, ok);
    SpreadItems(a + b, nfc, weigh, ok);
  }

  lemma ItemsOkConcat(a: seq<Value>, b: seq<Value>, nfc: string -> string, ok: string -> bool)
    requires ItemsOk(a, nfc, ok) && ItemsOk(b, nfc, ok)
    ensures ItemsOk(a + b, nfc, ok)
  {
  }

  lemma SpreadItems(items: seq<Value>, nfc: string -> string, weigh: string -> nat, ok: string -> bool)
    requires Additive(weigh, ok) && ItemsOk(items, nfc, ok)
    ensures Spread(CanonicalItems(items, nfc), weigh) == if items == [] then 0 else ItemsWeight(items, nfc, weigh) + weigh(",")
    ensures items == [] ==> ItemsWeight(items, nfc, weigh) == 0
  {
    Nothing(weigh, ok);
    if items != [] {
      ItemsAllOk(items, nfc, ok);
      CommasWeigh(CanonicalItems(items, nfc), weigh, ok);
    }
  }

  /** A list weighs at least what any stretch of it does. */
  lemma StretchWeighsLess(a: seq<Value>, b: seq<Value>, c: seq<Value>, nfc: string -> string, weigh: string -> nat, ok: string -> bool)
    requires Additive(weigh, ok) && ItemsOk(a, nfc, ok) && ItemsOk(b, nfc, ok) && ItemsOk(c, nfc, ok)
    ensures ItemsWeight(b, nfc, weigh) <= ItemsWeight(a + b + c, nfc, weigh)
  {
    ItemsOkConcat(a, b, nfc, ok);
    ItemsJoin(a + b, c, nfc, weigh, ok);
    ItemsJoin(a, b, nfc, weigh, ok);
  }
}
