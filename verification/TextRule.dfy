/** The canonical text rule: which characters a durable record may hold (json.rs 210-256). */
module TextRule {
  import opened Wrappers

  datatype TextError = ControlCharacter | BidiControl | Noncharacter

  /** Why the rule rejects `c`, or `None` when it allows it. */
  function Rule(c: char): Option<TextError> {
    var code := c as int;
    if code <= 0x1f || 0x80 <= code <= 0x9f then
      Some(ControlCharacter)
    else if code == 0x61c || 0x200e <= code <= 0x200f || 0x202a <= code <= 0x202e || 0x2066 <= code <= 0x2069 then
      Some(BidiControl)
    else if 0xfdd0 <= code <= 0xfdef || code % 0x1_0000 >= 0xfffe then
      Some(Noncharacter)
    else
      None
  }

  /** The first character's refusal, in text order. */
  function Validate(text: string): (r: Option<TextError>)
    ensures r.None? <==> Allowed(text)
  {
    if text == [] then None
    else if Rule(text[0]).Some? then Rule(text[0])
    else Validate(text[1..])
  }

  predicate Allowed(text: string) {
    forall c :: c in text ==> Rule(c).None?
  }

  /** Every rejected character replaced by one space. */
  function Fold(text: string): (r: string)
    ensures |r| == |text|
    ensures Allowed(r)
    ensures forall i :: 0 <= i < |text| ==> r[i] == if Rule(text[i]).None? then text[i] else ' '
    ensures Allowed(text) ==> r == text
  {
    seq(|text|, i requires 0 <= i < |text| => if Rule(text[i]).Some? then ' ' else text[i])
  }
}
