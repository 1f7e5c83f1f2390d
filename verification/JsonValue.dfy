/**
 The canonical data model (json.rs 159-208): JSON values, the rule a durable record passes, and
 what a value means once its text is NFC-normalised and the order of object members is forgotten.
 NFC itself is a parameter of which only `NfcLaws` is assumed.
 */
module JsonValue {
  import opened Wrappers
  import opened KeyOrder
  import TextRule

  datatype Value =
    | Null
    | Bool(b: bool)
    | Int(n: int)
    | Float(token: string)
    | Str(text: string)
    | Arr(items: seq<Value>)
    | Obj(members: seq<Member<Value>>)

  /** What the model assumes of Unicode normalization: it is idempotent and never introduces a
      character the text rule rejects. */
  ghost predicate NfcLaws(nfc: string -> string) {
    && (forall s :: nfc(nfc(s)) == nfc(s))
    && (forall s :: TextRule.Allowed(s) ==> TextRule.Allowed(nfc(s)))
  }

  const JSON_INTEGER_BOUND := 9_007_199_254_740_991

  datatype Rule = BinaryFloat | IntegerBound | TextBroken(error: TextRule.TextError) | KeysNormalizeAlike

  /** A broken rule and the field it is reported at, when one is named. */
  datatype Refusal = Refusal(rule: Rule, field: Option<string>)

  /** `validate_json`: the first broken rule, or `None`. */
  function Validate(v: Value, nfc: string -> string): Option<Refusal> {
    match v
    case Null => None
    case Bool(_) => None
    case Int(n) =>
      if -JSON_INTEGER_BOUND <= n <= JSON_INTEGER_BOUND then None else Some(Refusal(IntegerBound, None))
    case Float(_) => Some(Refusal(BinaryFloat, None))
    case Str(text) => ValidateText(text)
    case Arr(items) => ValidateItems(items, nfc)
    case Obj(members) =>
      match FirstClash(members, {}, nfc)
      case Some(key) => Some(Refusal(KeysNormalizeAlike, Some(key)))
      case None => ValidateMembers(members, nfc)
  }

  function ValidateText(text: string): Option<Refusal> {
    match TextRule.Validate(text)
    case Some(error) => Some(Refusal(TextBroken(error), None))
    case None => None
  }

  function ValidateItems(items: seq<Value>, nfc: string -> string): Option<Refusal> {
    if items == [] then None
    else match Validate(items[0], nfc)
      case Some(refusal) => Some(refusal)
      case None => ValidateItems(items[1..], nfc)
  }

  function ValidateMembers(members: seq<Member<Value>>, nfc: string -> string): Option<Refusal> {
    if members == [] then None
    else match ValidateText(members[0].key)
      case Some(refusal) => Some(refusal)
      case None =>
        match Validate(members[0].value, nfc)
        case Some(refusal) =>
          Some(if refusal.field.Some? then refusal else Refusal(refusal.rule, Some(members[0].key)))
        case None => ValidateMembers(members[1..], nfc)
  }

  /** The first normalised key already among `seen` or an earlier member's. */
  function FirstClash(members: seq<Member<Value>>, seen: set<string>, nfc: string -> string): Option<string> {
    if members == [] then None
    else
      var key := nfc(members[0].key);
      if key in seen then Some(key) else FirstClash(members[1..], seen + {key}, nfc)
  }

  /** What a durable record may be, read off its structure. */
  predicate WellFormed(v: Value, nfc: string -> string) {
    match v
    case Null => true
    case Bool(_) => true
    case Int(n) => -JSON_INTEGER_BOUND <= n <= JSON_INTEGER_BOUND
    case Float(_) => false
    case Str(text) => TextRule.Allowed(text)
    case Arr(items) => forall i :: 0 <= i < |items| ==> WellFormed(items[i], nfc)
    case Obj(members) =>
      && DistinctUnder(members, nfc)
      && forall i :: 0 <= i < |members| ==> TextRule.Allowed(members[i].key) && WellFormed(members[i].value, nfc)
  }

  predicate DistinctUnder(members: seq<Member<Value>>, nfc: string -> string) {
    forall i, j :: 0 <= i < j < |members| ==> nfc(members[i].key) != nfc(members[j].key)
  }

  lemma {:induction false} FirstClashExact(members: seq<Member<Value>>, seen: set<string>, nfc: string -> string)
    ensures FirstClash(members, seen, nfc).None? <==>
            DistinctUnder(members, nfc) && forall i :: 0 <= i < |members| ==> nfc(members[i].key) !in seen
  {
    if members != [] {
      var key, tail := nfc(members[0].key), members[1..];
      FirstClashExact(tail, seen + {key}, nfc);
      assert forall i :: 0 < i < |members| ==> members[i] == tail[i - 1];
      assert forall i :: 0 <= i < |tail| ==> tail[i] == members[i + 1];
      if key !in seen && FirstClash(tail, seen + {key}, nfc).None? {
        forall i, j | 0 <= i < j < |members| ensures nfc(members[i].key) != nfc(members[j].key) {
          assert members[j] == tail[j - 1];
          if i > 0 {
            assert members[i] == tail[i - 1];
          }
        }
      }
      if DistinctUnder(members, nfc) && forall i :: 0 <= i < |members| ==> nfc(members[i].key) !in seen {
        forall i | 0 <= i < |tail| ensures nfc(tail[i].key) !in seen + {key} {
          assert nfc(members[0].key) != nfc(members[i + 1].key);
        }
      }
    }
  }

  /** The validator accepts exactly the well-formed values. */
  lemma {:induction false} ValidateExact(v: Value, nfc: string -> string)
    ensures Validate(v, nfc).None? <==> WellFormed(v, nfc)
  {
    match v
    case Arr(items) => ValidateItemsExact(items, nfc);
    case Obj(members) =>
      FirstClashExact(members, {}, nfc);
      ValidateMembersExact(members, nfc);
    case _ =>
  }

  lemma {:induction false} ValidateItemsExact(items: seq<Value>, nfc: string -> string)
    ensures ValidateItems(items, nfc).None? <==> forall i :: 0 <= i < |items| ==> WellFormed(items[i], nfc)
  {
    if items != [] {
      ValidateExact(items[0], nfc);
      ValidateItemsExact(items[1..], nfc);
      assert forall i :: 0 < i < |items| ==> items[i] == items[1..][i - 1];
    }
  }

  lemma {:induction false} ValidateMembersExact(members: seq<Member<Value>>, nfc: string -> string)
    ensures ValidateMembers(members, nfc).None? <==>
            forall i :: 0 <= i < |members| ==> TextRule.Allowed(members[i].key) && WellFormed(members[i].value, nfc)
  {
    if members != [] {
      ValidateExact(members[0].value, nfc);
      ValidateMembersExact(members[1..], nfc);
      assert forall i :: 0 < i < |members| ==> members[i] == members[1..][i - 1];
    }
  }

  /** The rule is broken somewhere in the value, and `field` is the nearest member around the place; where
      two keys clash, it is the key they both normalise to. */
  predicate Breaks(v: Value, rule: Rule, field: Option<string>, nfc: string -> string) {
    match v
    case Null => false
    case Bool(_) => false
    case Int(n) => rule == IntegerBound && field == None && !(-JSON_INTEGER_BOUND <= n <= JSON_INTEGER_BOUND)
    case Float(_) => rule == BinaryFloat && field == None
    case Str(text) => BreaksText(text, rule) && field == None
    case Arr(items) => exists i :: 0 <= i < |items| && Breaks(items[i], rule, field, nfc)
    case Obj(members) =>
      || (rule == KeysNormalizeAlike && field.Some? && ClashOn(members, field.value, nfc))
      || exists i :: 0 <= i < |members| && BreaksMember(members[i], rule, field, nfc)
  }

  predicate BreaksMember(m: Member<Value>, rule: Rule, field: Option<string>, nfc: string -> string) {
    || (BreaksText(m.key, rule) && field == None)
    || (Breaks(m.value, rule, None, nfc) && field == Some(m.key))
    || (Breaks(m.value, rule, field, nfc) && field.Some?)
  }

  /** Two keys normalise to this one. */
  predicate ClashOn(members: seq<Member<Value>>, key: string, nfc: string -> string) {
    exists i, j :: 0 <= i < j < |members| && nfc(members[i].key) == nfc(members[j].key) == key
  }

  predicate BreaksText(text: string, rule: Rule) {
    rule.TextBroken? && exists c :: c in text && TextRule.Rule(c) == Some(rule.error)
  }

  lemma {:induction false} TextRefusal(text: string)
    ensures ValidateText(text).Some? ==> BreaksText(text, ValidateText(text).value.rule) && ValidateText(text).value.field == None
  {
    if text != [] {
      TextRefusal(text[1..]);
      assert text[0] in text && forall c :: c in text[1..] ==> c in text;
    }
  }

  lemma {:induction false} ClashFound(members: seq<Member<Value>>, seen: set<string>, nfc: string -> string)
    requires FirstClash(members, seen, nfc).Some?
    ensures var key := FirstClash(members, seen, nfc).value;
      ClashOn(members, key, nfc) || (key in seen && exists i :: 0 <= i < |members| && nfc(members[i].key) == key)
  {
    var key, tail, found := nfc(members[0].key), members[1..], FirstClash(members, seen, nfc).value;
    if key !in seen {
      ClashFound(tail, seen + {key}, nfc);
      if i, j :| 0 <= i < j < |tail| && nfc(tail[i].key) == nfc(tail[j].key) == found {
        assert members[i + 1] == tail[i] && members[j + 1] == tail[j];
      } else {
        var i :| 0 <= i < |tail| && nfc(tail[i].key) == found;
        assert members[i + 1] == tail[i];
      }
    }
  }

  /** A refusal names a rule that the value breaks, and the field it breaks it at. */
  lemma {:induction false} RefusalIsTrue(v: Value, nfc: string -> string)
    ensures Validate(v, nfc).Some? ==> Breaks(v, Validate(v, nfc).value.rule, Validate(v, nfc).value.field, nfc)
  {
    match v
    case Str(text) => TextRefusal(text);
    case Arr(items) => ItemsRefusal(items, nfc);
    case Obj(members) =>
      if FirstClash(members, {}, nfc).Some? {
        ClashFound(members, {}, nfc);
      }
      MembersRefusal(members, nfc);
    case _ =>
  }

  lemma {:induction false} ItemsRefusal(items: seq<Value>, nfc: string -> string)
    ensures ValidateItems(items, nfc).Some? ==> var refusal := ValidateItems(items, nfc).value;
      exists i :: 0 <= i < |items| && Breaks(items[i], refusal.rule, refusal.field, nfc)
  {
    if items != [] {
      RefusalIsTrue(items[0], nfc);
      ItemsRefusal(items[1..], nfc);
      assert forall i :: 0 <= i < |items[1..]| ==> items[1..][i] == items[i + 1];
    }
  }

  lemma {:induction false} MembersRefusal(members: seq<Member<Value>>, nfc: string -> string)
    ensures ValidateMembers(members, nfc).Some? ==> var refusal := ValidateMembers(members, nfc).value;
      exists i :: 0 <= i < |members| && BreaksMember(members[i], refusal.rule, refusal.field, nfc)
  {
    if members != [] {
      TextRefusal(members[0].key);
      RefusalIsTrue(members[0].value, nfc);
      MembersRefusal(members[1..], nfc);
      assert forall i :: 0 <= i < |members[1..]| ==> members[1..][i] == members[i + 1];
    }
  }

  /** What a value says: NFC text, and objects as maps. */
  datatype Tree = Scalar(v: Value) | List(trees: seq<Tree>) | Record(fields: map<string, Tree>)

  function Meaning(v: Value, nfc: string -> string): Tree {
    match v
    case Str(text) => Scalar(Str(nfc(text)))
    case Arr(items) => List(MeaningItems(items, nfc))
    case Obj(members) => Record(MeaningMembers(members, nfc))
    case _ => Scalar(v)
  }

  function MeaningItems(items: seq<Value>, nfc: string -> string): (r: seq<Tree>)
    ensures |r| == |items|
  {
    if items == [] then [] else [Meaning(items[0], nfc)] + MeaningItems(items[1..], nfc)
  }

  function MeaningMembers(members: seq<Member<Value>>, nfc: string -> string): map<string, Tree> {
    if members == [] then map[]
    else MeaningMembers(members[1..], nfc)[nfc(members[0].key) := Meaning(members[0].value, nfc)]
  }

  /** The value a canonical record carries: every text in NFC, every object's members in order. */
  function Normal(v: Value, nfc: string -> string): Value {
    match v
    case Str(text) => Str(nfc(text))
    case Arr(items) => Arr(NormalItems(items, nfc))
    case Obj(members) => Obj(Sort(NormalMembers(members, nfc)))
    case _ => v
  }

  function NormalItems(items: seq<Value>, nfc: string -> string): (r: seq<Value>)
    ensures |r| == |items|
  {
    if items == [] then [] else [Normal(items[0], nfc)] + NormalItems(items[1..], nfc)
  }

  function NormalMembers(members: seq<Member<Value>>, nfc: string -> string): (r: seq<Member<Value>>)
    ensures |r| == |members|
  {
    if members == [] then []
    else [Member(nfc(members[0].key), Normal(members[0].value, nfc))] + NormalMembers(members[1..], nfc)
  }

  ghost predicate IsNormal(v: Value, nfc: string -> string) {
    match v
    case Str(text) => nfc(text) == text
    case Arr(items) => forall i :: 0 <= i < |items| ==> IsNormal(items[i], nfc)
    case Obj(members) =>
      && Ascending(members)
      && forall i :: 0 <= i < |members| ==> nfc(members[i].key) == members[i].key && IsNormal(members[i].value, nfc)
    case _ => true
  }
}
