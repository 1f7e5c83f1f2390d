/** What the strict parser's errors say of a text (json.rs 463-498). */
module StrictErrors {
  import opened Wrappers
  import opened KeyOrder
  import opened JsonSyntax
  import opened JsonValue
  import opened DuplicateKeys
  import opened JsonParser
  import opened JsonStrict

  /** Two written keys count as one exactly when their texts are equal, after NFC where that is asked; a key
      that is no text counts as it is written. */
  lemma AlikeExact(a: string, b: string, identity: KeyIdentity, nfc: string -> string)
    ensures ObjectKey(a, identity, nfc) == ObjectKey(b, identity, nfc) <==>
      match (Decode(a), Decode(b))
      case (Some(x), Some(y)) => if identity == DecodedText then x == y else nfc(x) == nfc(y)
      case (Some(x), None) => (if identity == DecodedText then x else nfc(x)) == b
      case (None, Some(y)) => (if identity == DecodedText then y else nfc(y)) == a
      case (None, None) => a == b
  {
  }

  /** No object of the value, at any depth, has two keys that normalise alike. */
  predicate KeysApart(v: Value, nfc: string -> string) {
    match v
    case Arr(items) => forall i :: 0 <= i < |items| ==> KeysApart(items[i], nfc)
    case Obj(members) => DistinctUnder(members, nfc) && forall i :: 0 <= i < |members| ==> KeysApart(members[i].value, nfc)
    case _ => true
  }

  lemma ApartIsDistinct(members: seq<Member<Value>>, nfc: string -> string)
    requires DistinctUnder(members, nfc)
    ensures DistinctKeys(members)
    decreases members
  {
    if members != [] {
      var tail := members[1..];
      assert forall i :: 0 <= i < |tail| ==> tail[i] == members[i + 1];
      ApartIsDistinct(tail, nfc);
      KeyThere(members[0].key, tail);
    }
  }

  lemma {:induction false} KeyThere(key: string, members: seq<Member<Value>>)
    ensures key in Keys(members) <==> exists i :: 0 <= i < |members| && members[i].key == key
  {
    if members != [] {
      KeyThere(key, members[1..]);
      assert forall i :: 0 <= i < |members[1..]| ==> members[1..][i] == members[i + 1];
      assert forall i :: 0 < i < |members| ==> members[i] == members[1..][i - 1];
    }
  }

  /** A text without repeated keys denotes a value without them. */
  lemma {:induction false} ScannedApart(doc: Doc, nfc: string -> string)
    requires Denote(doc).Some? && !Repeats(doc, KeyOf(NormalizedText, nfc))
    ensures KeysApart(Denote(doc).value, nfc)
    decreases doc, 1
  {
    match doc
    case Array(_, items) => ItemsApart(items, nfc);
    case Object(_, members) =>
      var list := DenoteMembers(members).value;
      MembersApart(members, nfc);
      forall i, j | 0 <= i < j < |list| ensures nfc(list[i].key) != nfc(list[j].key) {
        assert KeyOf(NormalizedText, nfc)(members[i].raw) != KeyOf(NormalizedText, nfc)(members[j].raw);
      }
      ApartIsDistinct(list, nfc);
      CollectDistinct(list, []);
      assert [] + list == list;
    case _ =>
  }

  lemma {:induction false} ItemsApart(items: seq<Padded>, nfc: string -> string)
    requires DenoteItems(items).Some? && forall i :: 0 <= i < |items| ==> !Repeats(items[i].doc, KeyOf(NormalizedText, nfc))
    ensures forall i :: 0 <= i < |DenoteItems(items).value| ==> KeysApart(DenoteItems(items).value[i], nfc)
    decreases items, 0
  {
    if items != [] {
      ScannedApart(items[0].doc, nfc);
      assert forall i :: 0 <= i < |items[1..]| ==> items[1..][i] == items[i + 1];
      ItemsApart(items[1..], nfc);
    }
  }

  lemma {:induction false} MembersApart(members: seq<Pair>, nfc: string -> string)
    requires DenoteMembers(members).Some?
    requires forall i :: 0 <= i < |members| ==> !Repeats(members[i].value.doc, KeyOf(NormalizedText, nfc))
    ensures var list := DenoteMembers(members).value;
      && |list| == |members|
      && forall i :: 0 <= i < |list| ==> KeysApart(list[i].value, nfc) && Decode(members[i].raw) == Some(list[i].key)
    decreases members, 0
  {
    if members != [] {
      ScannedApart(members[0].value.doc, nfc);
      assert forall i :: 0 <= i < |members[1..]| ==> members[1..][i] == members[i + 1];
      MembersApart(members[1..], nfc);
    }
  }

  lemma {:induction false} ApartBreaksNothing(v: Value, field: Option<string>, nfc: string -> string)
    requires KeysApart(v, nfc)
    ensures !Breaks(v, KeysNormalizeAlike, field, nfc)
    decreases v
  {
    match v
    case Arr(items) =>
      forall i | 0 <= i < |items| ensures !Breaks(items[i], KeysNormalizeAlike, field, nfc) {
        ApartBreaksNothing(items[i], field, nfc);
      }
    case Obj(members) =>
      forall i | 0 <= i < |members| ensures !BreaksMember(members[i], KeysNormalizeAlike, field, nfc) {
        ApartBreaksNothing(members[i].value, field, nfc);
        ApartBreaksNothing(members[i].value, None, nfc);
      }
    case _ =>
  }

  /** Two keys that normalise alike are always answered as a duplicate, before the canonical rule is asked:
      the one scan finds every pair that rule would refuse. */
  lemma DuplicatesComeFirst(p: Padded, nfc: string -> string)
    requires GrammarPadded(p)
    ensures var r := ParseStrict(PaddedText(p), nfc);
      && (r.Err? && r.error.Refused? ==> r.error.refusal.rule != KeysNormalizeAlike)
      && (r.Ok? ==> KeysApart(r.value, nfc) && Denote(p.doc) == Some(r.value))
  {
    ParseStrictExact(p, nfc);
    if !Repeats(p.doc, KeyOf(NormalizedText, nfc)) && Denote(p.doc).Some? {
      var v := Denote(p.doc).value;
      ScannedApart(p.doc, nfc);
      RefusalIsTrue(v, nfc);
      if Validate(v, nfc).Some? {
        ApartBreaksNothing(v, Validate(v, nfc).value.field, nfc);
      }
    }
  }
}
