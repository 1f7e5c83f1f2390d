/**
 The one-pass duplicate-key scan (json.rs 488-553). It reads characters, not tokens: a stack of key
 sets and one flag. `ScanExact` says that on every well-formed text it refuses exactly when some
 object in the text has two keys with one identity.
 */
module DuplicateKeys {
  import opened JsonSyntax
  import opened Wrappers

  /** What stands between the opening quote and the next unescaped one, and what follows that. */
  datatype Token = Token(raw: string, rest: string, closed: bool)

  function SkipString(s: string): (t: Token)
    ensures |t.rest| <= |s| && (t.closed ==> |t.rest| < |s|)
    decreases |s|
  {
    if s == [] then Token("", "", false)
    else if s[0] == '"' then Token("", s[1..], true)
    else if s[0] == '\\' then
      if |s| == 1 then Token("", "", false)
      else var t := SkipString(s[2..]); Token(s[..2] + t.raw, t.rest, t.closed)
    else var t := SkipString(s[1..]); Token(s[..1] + t.raw, t.rest, t.closed)
  }

  /** An open object's keys so far, or `None` for an open array. */
  type Frame = Option<set<string>>

  function Pop(stack: seq<Frame>): seq<Frame> {
    if stack == [] then [] else stack[..|stack| - 1]
  }

  predicate InObject(stack: seq<Frame>) {
    stack != [] && stack[|stack| - 1].Some?
  }

  /** Whether the scan reaches the end of `s` without meeting a repeated key. */
  predicate Scan(s: string, stack: seq<Frame>, expecting: bool, identity: string -> string)
    decreases |s|
  {
    if s == [] then true
    else if s[0] == '{' then Scan(s[1..], stack + [Some({})], true, identity)
    else if s[0] == '[' then Scan(s[1..], stack + [None], false, identity)
    else if s[0] == '}' || s[0] == ']' then Scan(s[1..], Pop(stack), false, identity)
    else if s[0] == ',' then Scan(s[1..], stack, InObject(stack), identity)
    else if s[0] == '"' then
      var t := SkipString(s[1..]);
      if expecting && InObject(stack) then
        var keys := stack[|stack| - 1].value;
        var key := identity(t.raw);
        key !in keys && Scan(t.rest, Pop(stack) + [Some(keys + {key})], false, identity)
      else
        Scan(t.rest, stack, false, identity)
    else Scan(s[1..], stack, expecting, identity)
  }

  /** What was read so far, and what the scan from `at` on still reads, make the token. */
  predicate Reads(token: Token, raw: string, text: string, at: nat)
    requires at <= |text|
  {
    raw + SkipString(text[at..]).raw == token.raw && SkipString(text[at..]).rest == token.rest
  }

  lemma ReadsPlain(token: Token, raw: string, text: string, at: nat)
    requires at < |text| && Reads(token, raw, text, at) && text[at] != '"' && text[at] != '\\'
    ensures Reads(token, raw + [text[at]], text, at + 1)
  {
  }

  lemma ReadsEscape(token: Token, raw: string, text: string, at: nat)
    requires at + 1 < |text| && Reads(token, raw, text, at) && text[at] == '\\'
    ensures Reads(token, raw + ['\\', text[at + 1]], text, at + 2)
  {
  }

  /** The token ends at its closing quote, or where the text is cut off. */
  lemma ReadsEnd(token: Token, raw: string, text: string, at: nat)
    requires at <= |text| && Reads(token, raw, text, at)
    requires at == |text| || text[at] == '"' || (text[at] == '\\' && at + 1 == |text|)
    ensures raw == token.raw
    ensures token.rest == text[if at < |text| then at + 1 else at..]
  {
  }

  /** The inner loop: collects a string's characters up to its closing quote. */
  method ReadString(text: string, start: nat) returns (raw: string, at: nat)
    requires start <= |text|
    ensures start <= at <= |text|
    ensures raw == SkipString(text[start..]).raw && text[at..] == SkipString(text[start..]).rest
  {
    hide SkipString;
    raw := "";
    at := start;
    var escaped := false;
    ghost var token := SkipString(text[start..]);
    while at < |text|
      invariant start <= at <= |text| && (escaped ==> start < at && text[at - 1] == '\\')
      invariant Reads(token, raw, text, if escaped then at - 1 else at)
      decreases |text| - at
    {
      var inner := text[at];
      if escaped {
        ReadsEscape(token, raw, text, at - 1);
        raw := raw + ['\\', inner];
        escaped := false;
      } else if inner == '\\' {
        escaped := true;
      } else if inner == '"' {
        ReadsEnd(token, raw, text, at);
        return raw, at + 1;
      } else {
        ReadsPlain(token, raw, text, at);
        raw := raw + [inner];
      }
      at := at + 1;
    }
    ReadsEnd(token, raw, text, if escaped then at - 1 else at);
  }

  /** The loop of `reject_duplicate_keys`. */
  method RejectDuplicateKeys(text: string, identity: string -> string) returns (accepted: bool)
    ensures accepted == Scan(text, [], false, identity)
  {
    var stack: seq<Frame> := [];
    var expecting := false;
    var at := 0;
    assert text[0..] == text;
    while at < |text|
      invariant 0 <= at <= |text|
      invariant Scan(text, [], false, identity) == Scan(text[at..], stack, expecting, identity)
    {
      var c := text[at];
      assert text[at..][1..] == text[at + 1..];
      at := at + 1;
      if c == '{' {
        stack := stack + [Some({})];
        expecting := true;
      } else if c == '[' {
        stack := stack + [None];
        expecting := false;
      } else if c == '}' || c == ']' {
        stack := Pop(stack);
        expecting := false;
      } else if c == ',' {
        expecting := InObject(stack);
      } else if c == '"' {
        var raw, next := ReadString(text, at);
        at := next;
        if expecting && InObject(stack) {
          var keys := stack[|stack| - 1].value;
          if identity(raw) in keys {
            return false;
          }
          stack := Pop(stack) + [Some(keys + {identity(raw)})];
        }
        expecting := false;
      }
    }
    return true;
  }

  /** Whether some object node of the text has two keys with one identity. */
  predicate Repeats(doc: Doc, identity: string -> string) {
    match doc
    case Array(_, items) => exists i :: 0 <= i < |items| && Repeats(items[i].doc, identity)
    case Object(_, members) =>
      || (exists i, j :: 0 <= i < j < |members| && identity(members[i].raw) == identity(members[j].raw))
      || (exists i :: 0 <= i < |members| && Repeats(members[i].value.doc, identity))
    case _ => false
  }

  /** `Repeats` for the members of one object, given the keys already read. */
  predicate RepeatsFrom(members: seq<Pair>, seen: set<string>, identity: string -> string) {
    members != [] &&
    (|| identity(members[0].raw) in seen
     || Repeats(members[0].value.doc, identity)
     || RepeatsFrom(members[1..], seen + {identity(members[0].raw)}, identity))
  }

  /** Two of the keys have one identity. */
  ghost predicate SameKeys(members: seq<Pair>, identity: string -> string) {
    exists i, j :: 0 <= i < j < |members| && identity(members[i].raw) == identity(members[j].raw)
  }

  ghost predicate KeyAmong(members: seq<Pair>, seen: set<string>, identity: string -> string) {
    exists i :: 0 <= i < |members| && identity(members[i].raw) in seen
  }

  ghost predicate RepeatsInside(members: seq<Pair>, identity: string -> string) {
    exists i :: 0 <= i < |members| && Repeats(members[i].value.doc, identity)
  }

  lemma KeyAmongStep(m: Pair, tail: seq<Pair>, seen: set<string>, identity: string -> string)
    ensures KeyAmong([m] + tail, seen, identity) <==> identity(m.raw) in seen || KeyAmong(tail, seen, identity)
  {
    var members := [m] + tail;
    if KeyAmong(tail, seen, identity) {
      var i :| 0 <= i < |tail| && identity(tail[i].raw) in seen;
      assert members[i + 1] == tail[i];
    }
    if identity(m.raw) in seen {
      assert members[0] == m;
    }
  }

  lemma SameKeysStep(m: Pair, tail: seq<Pair>, identity: string -> string)
    ensures SameKeys([m] + tail, identity) <==> KeyAmong(tail, {identity(m.raw)}, identity) || SameKeys(tail, identity)
  {
    var members := [m] + tail;
    if i, j :| 0 <= i < j < |members| && identity(members[i].raw) == identity(members[j].raw) {
      assert members[j] == tail[j - 1];
      if i > 0 {
        assert members[i] == tail[i - 1];
      }
    }
    if i, j :| 0 <= i < j < |tail| && identity(tail[i].raw) == identity(tail[j].raw) {
      assert members[i + 1] == tail[i] && members[j + 1] == tail[j];
    }
    if i :| 0 <= i < |tail| && identity(tail[i].raw) in {identity(m.raw)} {
      assert members[0] == m && members[i + 1] == tail[i];
    }
  }

  lemma InsideStep(m: Pair, tail: seq<Pair>, identity: string -> string)
    ensures RepeatsInside([m] + tail, identity) <==> Repeats(m.value.doc, identity) || RepeatsInside(tail, identity)
  {
    var members := [m] + tail;
    if i :| 0 <= i < |tail| && Repeats(tail[i].value.doc, identity) {
      assert members[i + 1] == tail[i];
    }
    if Repeats(m.value.doc, identity) {
      assert members[0] == m;
    }
  }

  lemma KeyAmongUnion(members: seq<Pair>, a: set<string>, b: set<string>, identity: string -> string)
    ensures KeyAmong(members, a + b, identity) <==> KeyAmong(members, a, identity) || KeyAmong(members, b, identity)
  {
  }

  lemma {:induction false} RepeatsFromExact(members: seq<Pair>, seen: set<string>, identity: string -> string)
    ensures RepeatsFrom(members, seen, identity) <==>
            KeyAmong(members, seen, identity) || SameKeys(members, identity) || RepeatsInside(members, identity)
  {
    if members != [] {
      var m, tail := members[0], members[1..];
      assert members == [m] + tail;
      RepeatsFromExact(tail, seen + {identity(m.raw)}, identity);
      KeyAmongUnion(tail, seen, {identity(m.raw)}, identity);
      KeyAmongStep(m, tail, seen, identity);
      SameKeysStep(m, tail, identity);
      InsideStep(m, tail, identity);
    }
  }

  predicate Neutral(c: char) {
    c != '{' && c != '[' && c != '}' && c != ']' && c != ',' && c != '"'
  }

  /** Characters the scan does not look at. */
  lemma {:induction false} ScanNeutral(s: string, rest: string, stack: seq<Frame>, expecting: bool, identity: string -> string)
    requires forall i :: 0 <= i < |s| ==> Neutral(s[i])
    ensures Scan(s + rest, stack, expecting, identity) == Scan(rest, stack, expecting, identity)
  {
    if s == [] {
      assert s + rest == rest;
    } else {
      assert (s + rest)[1..] == s[1..] + rest;
      ScanNeutral(s[1..], rest, stack, expecting, identity);
    }
  }

  lemma ScanBlank(s: string, rest: string, stack: seq<Frame>, expecting: bool, identity: string -> string)
    requires Blank(s)
    ensures Scan(s + rest, stack, expecting, identity) == Scan(rest, stack, expecting, identity)
  {
    forall i | 0 <= i < |s| ensures Neutral(s[i]) {
      assert IsSpace(s[i]);
    }
    ScanNeutral(s, rest, stack, expecting, identity);
  }

  /** A quoted raw string is skipped as one token. */
  lemma {:induction false} SkipRaw(raw: string, rest: string)
    requires RawString(raw)
    ensures SkipString(raw + "\"" + rest) == Token(raw, rest, true)
    decreases |raw|
  {
    var s := raw + "\"" + rest;
    if raw == [] {
      assert s[1..] == rest;
    } else {
      var n := if raw[0] == '\\' then 2 else 1;
      SkipRaw(raw[n..], rest);
      assert s[n..] == raw[n..] + "\"" + rest;
      assert s[..n] + raw[n..] == raw;
    }
  }

  lemma ScanQuoted(raw: string, rest: string, stack: seq<Frame>, identity: string -> string)
    requires RawString(raw)
    ensures Scan("\"" + raw + "\"" + rest, stack, false, identity) == Scan(rest, stack, false, identity)
    ensures forall seen ::
      Scan("\"" + raw + "\"" + rest, stack + [Some(seen)], true, identity) ==
      (identity(raw) !in seen && Scan(rest, stack + [Some(seen + {identity(raw)})], false, identity))
  {
    var s := "\"" + raw + "\"" + rest;
    assert s[1..] == raw + "\"" + rest;
    SkipRaw(raw, rest);
    forall seen ensures Pop(stack + [Some(seen)]) == stack {
    }
  }

  lemma ScanBracket(c: char, rest: string, stack: seq<Frame>, expecting: bool, identity: string -> string)
    ensures c == '[' ==> Scan([c] + rest, stack, expecting, identity) == Scan(rest, stack + [None], false, identity)
    ensures c == '{' ==> Scan([c] + rest, stack, expecting, identity) == Scan(rest, stack + [Some({})], true, identity)
    ensures c == ',' ==> Scan([c] + rest, stack, expecting, identity) == Scan(rest, stack, InObject(stack), identity)
    ensures c == ':' ==> Scan([c] + rest, stack, expecting, identity) == Scan(rest, stack, expecting, identity)
    ensures c == ']' || c == '}' ==>
      forall top :: Scan([c] + rest, stack + [top], expecting, identity) == Scan(rest, stack, false, identity)
  {
  }

  /** The scan steps over one value: it stops there exactly when the value repeats a key, and
      otherwise goes on with the stack and flag it came with. */
  lemma {:induction false} ScanDoc(doc: Doc, rest: string, stack: seq<Frame>, identity: string -> string)
    requires Grammar(doc)
    ensures Scan(Text(doc) + rest, stack, false, identity) == (!Repeats(doc, identity) && Scan(rest, stack, false, identity))
    decreases doc, 2
  {
    match doc
    case Word(word) =>
      assert forall i :: 0 <= i < |word| ==> Neutral(word[i]);
      ScanNeutral(word, rest, stack, false, identity);
    case Number(token) =>
      NumberChars(token);
      ScanNeutral(token, rest, stack, false, identity);
    case Quote(raw) => ScanQuoted(raw, rest, stack, identity);
    case Array(inner, items) => ScanArray(doc, rest, stack, identity);
    case Object(inner, members) => ScanObject(doc, rest, stack, identity);
  }

  lemma {:induction false} ScanArray(doc: Doc, rest: string, stack: seq<Frame>, identity: string -> string)
    requires doc.Array? && Grammar(doc)
    ensures Scan(Text(doc) + rest, stack, false, identity) == (!Repeats(doc, identity) && Scan(rest, stack, false, identity))
    decreases doc, 1
  {
    var content := if doc.items == [] then doc.inner else ItemsText(doc.items);
    var close := "]" + rest;
    assert Text(doc) + rest == "[" + (content + close);
    ScanBracket('[', content + close, stack, false, identity);
    if doc.items == [] {
      ScanBlank(doc.inner, close, stack + [None], false, identity);
    } else {
      ScanItems(doc.items, close, stack + [None], identity);
    }
    ScanBracket(']', rest, stack, false, identity);
  }

  lemma {:induction false} ScanObject(doc: Doc, rest: string, stack: seq<Frame>, identity: string -> string)
    requires doc.Object? && Grammar(doc)
    ensures Scan(Text(doc) + rest, stack, false, identity) == (!Repeats(doc, identity) && Scan(rest, stack, false, identity))
    decreases doc, 1
  {
    var content := if doc.members == [] then doc.inner else MembersText(doc.members);
    var close := "}" + rest;
    assert Text(doc) + rest == "{" + (content + close);
    ScanBracket('{', content + close, stack, false, identity);
    RepeatsFromExact(doc.members, {}, identity);
    if doc.members == [] {
      ScanBlank(doc.inner, close, stack + [Some({})], true, identity);
      ScanBracket('}', rest, stack, true, identity);
    } else {
      ScanMembers(doc.members, rest, stack, {}, identity);
    }
  }

  lemma {:induction false} ScanPadded(p: Padded, rest: string, stack: seq<Frame>, identity: string -> string)
    requires GrammarPadded(p)
    ensures Scan(PaddedText(p) + rest, stack, false, identity) == (!Repeats(p.doc, identity) && Scan(rest, stack, false, identity))
    decreases p, 3
  {
    assert PaddedText(p) + rest == p.before + (Text(p.doc) + (p.after + rest));
    ScanBlank(p.before, Text(p.doc) + (p.after + rest), stack, false, identity);
    ScanDoc(p.doc, p.after + rest, stack, identity);
    ScanBlank(p.after, rest, stack, false, identity);
  }

  lemma {:induction false} ScanItems(items: seq<Padded>, close: string, stack: seq<Frame>, identity: string -> string)
    requires items != [] && stack != [] && stack[|stack| - 1].None?
    requires forall i :: 0 <= i < |items| ==> GrammarPadded(items[i])
    ensures Scan(ItemsText(items) + close, stack, false, identity) ==
            (!(exists i :: 0 <= i < |items| && Repeats(items[i].doc, identity)) && Scan(close, stack, false, identity))
    decreases items, 0
  {
    var head := PaddedText(items[0]);
    if |items| == 1 {
      assert ItemsText(items) + close == head + close;
      ScanPadded(items[0], close, stack, identity);
    } else {
      var tail := "," + (ItemsText(items[1..]) + close);
      assert ItemsText(items) + close == head + tail;
      ScanPadded(items[0], tail, stack, identity);
      assert tail[1..] == ItemsText(items[1..]) + close;
      ScanItems(items[1..], close, stack, identity);
      assert forall i :: 0 < i < |items| ==> items[i] == items[1..][i - 1];
    }
  }

  lemma {:induction false} ScanMembers(members: seq<Pair>, rest: string, stack: seq<Frame>, seen: set<string>, identity: string -> string)
    requires members != []
    requires forall i :: 0 <= i < |members| ==> GrammarPair(members[i])
    ensures Scan(MembersText(members) + ("}" + rest), stack + [Some(seen)], true, identity) ==
            (!RepeatsFrom(members, seen, identity) && Scan(rest, stack, false, identity))
    decreases members, 0
  {
    var m, close := members[0], "}" + rest;
    var tail := if |members| == 1 then close else "," + (MembersText(members[1..]) + close);
    var key := identity(m.raw);
    var after := stack + [Some(seen + {key})];
    assert MembersText(members) + close == PairText(m) + tail;
    ScanKey(m, tail, stack, seen, identity);
    if key !in seen {
      ScanPadded(m.value, tail, after, identity);
      if |members| == 1 {
        ScanBracket('}', rest, stack, false, identity);
      } else {
        ScanBracket(',', MembersText(members[1..]) + close, after, false, identity);
        ScanMembers(members[1..], rest, stack, seen + {key}, identity);
      }
    }
  }

  lemma ScanKey(m: Pair, tail: string, stack: seq<Frame>, seen: set<string>, identity: string -> string)
    requires GrammarPair(m)
    ensures Scan(PairText(m) + tail, stack + [Some(seen)], true, identity) ==
            (identity(m.raw) !in seen &&
             Scan(PaddedText(m.value) + tail, stack + [Some(seen + {identity(m.raw)})], false, identity))
  {
    var value := PaddedText(m.value) + tail;
    var afterKey := m.colonSpace + (":" + value);
    var quoted := "\"" + m.raw + "\"" + afterKey;
    assert PairText(m) + tail == m.before + quoted;
    ScanBlank(m.before, quoted, stack + [Some(seen)], true, identity);
    ScanQuoted(m.raw, afterKey, stack, identity);
    var next := stack + [Some(seen + {identity(m.raw)})];
    ScanBlank(m.colonSpace, ":" + value, next, false, identity);
    ScanBracket(':', value, next, false, identity);
  }

  /** The scan is exact: on every well-formed text, with any whitespace, escapes and nesting, it
      refuses if and only if some object has two keys with one identity. */
  lemma ScanExact(p: Padded, identity: string -> string)
    requires GrammarPadded(p)
    ensures Scan(PaddedText(p), [], false, identity) <==> !Repeats(p.doc, identity)
  {
    assert PaddedText(p) + "" == PaddedText(p);
    ScanPadded(p, "", [], identity);
  }
}
