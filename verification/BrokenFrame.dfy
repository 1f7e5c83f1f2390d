/**
 A fact that breaks the frame (hooks.rs 1069-1113). Its statement has a combining acute accent right
 after a line break. Escaping writes the break as a backslash and an n, and normalising the framed
 context as a whole then composes that n with the accent: the host receives a document that is a byte
 shorter than the frame says, and no JSON text.
 */
module BrokenFrame {
  import opened Wrappers
  import opened KeyOrder
  import opened JsonValue
  import opened JsonWriter
  import opened Weights
  import opened Evidence
  import opened Framing
  import Hex
  import JsonParser
  import JsonStrict
  import JsonSyntax
  import TextRule
  import Utf8

  const ACCENT := '\U{301}'
  const N_ACUTE := '\U{144}'

  /** A normalization that knows one fact of Unicode: n and an acute accent are one letter. */
  function Acute(text: string): string {
    if text == "" then ""
    else if Accented(text) then [N_ACUTE] + Acute(text[2..])
    else [text[0]] + Acute(text[1..])
  }

  predicate Accented(text: string) {
    |text| >= 2 && text[0] == 'n' && text[1] == ACCENT
  }

  predicate NoPair(text: string) {
    forall i :: 0 <= i < |text| - 1 ==> !(text[i] == 'n' && text[i + 1] == ACCENT)
  }

  lemma {:induction false} AcuteFixes(text: string)
    ensures Acute(text) == text <==> NoPair(text)
  {
    if text != "" {
      var rest := text[1..];
      AcuteFixes(rest);
      if Accented(text) {
        assert Acute(text)[0] != text[0];
        assert !NoPair(text);
      } else {
        assert Acute(text)[1..] == Acute(rest);
        assert text == [text[0]] + rest;
        assert forall i :: 0 <= i < |rest| ==> rest[i] == text[i + 1];
        assert NoPair(rest) ==> NoPair(text) by {
          if NoPair(rest) {
            forall i | 0 <= i < |text| - 1 ensures !(text[i] == 'n' && text[i + 1] == ACCENT) {
              assert i > 0 ==> text[i] == rest[i - 1] && text[i + 1] == rest[i];
            }
          }
        }
      }
    }
  }

  lemma {:induction false} AcuteLeavesNoPair(text: string)
    ensures NoPair(Acute(text))
    ensures Acute(text) != "" && Acute(text)[0] == ACCENT ==> text[0] == ACCENT
  {
    if text != "" {
      var rest := if Accented(text) then text[2..] else text[1..];
      AcuteLeavesNoPair(rest);
      var out := Acute(text);
      assert out[1..] == Acute(rest);
      forall i | 0 <= i < |out| - 1 ensures !(out[i] == 'n' && out[i + 1] == ACCENT) {
        if i > 0 {
          assert out[i] == Acute(rest)[i - 1] && out[i + 1] == Acute(rest)[i];
        } else {
          assert out[1] == Acute(rest)[0];
        }
      }
    }
  }

  lemma {:induction false} AcuteSplits(a: string, b: string)
    requires b != "" && b[0] != ACCENT
    ensures Acute(a + b) == Acute(a) + Acute(b)
  {
    if a == "" {
      assert a + b == b;
    } else {
      var n := if Accented(a) then 2 else 1;
      assert Accented(a + b) <==> Accented(a);
      assert (a + b)[0] == a[0];
      assert (a + b)[n..] == a[n..] + b;
      AcuteSplits(a[n..], b);
    }
  }

  lemma {:induction false} AcuteKeepsAllowed(text: string)
    requires TextRule.Allowed(text)
    ensures TextRule.Allowed(Acute(text))
  {
    if text != "" {
      var n := if Accented(text) then 2 else 1;
      assert forall c :: c in text[n..] ==> c in text;
      AcuteKeepsAllowed(text[n..]);
      assert text[0] in text;
    }
  }

  lemma AcuteIsLawful()
    ensures AsciiLaws(Acute)
  {
    forall s ensures Acute(Acute(s)) == Acute(s) {
      AcuteLeavesNoPair(s);
      AcuteFixes(Acute(s));
    }
    forall s | TextRule.Allowed(s) ensures TextRule.Allowed(Acute(s)) {
      AcuteKeepsAllowed(s);
    }
    forall a, b | b != "" && (b[0] as int) < 0x80 ensures Acute(a + b) == Acute(a) + Acute(b) {
      AcuteSplits(a, b);
    }
    forall s | Ascii(s) ensures Acute(s) == s {
      AcuteFixes(s);
    }
    forall a, b | Acute(a + b) == a + b ensures Acute(a) == a && Acute(b) == b {
      AcuteFixes(a + b);
      PartsHaveNoPair(a, b);
      AcuteFixes(a);
      AcuteFixes(b);
    }
  }

  lemma PartsHaveNoPair(a: string, b: string)
    requires NoPair(a + b)
    ensures NoPair(a) && NoPair(b)
  {
    forall i | 0 <= i < |a| - 1 ensures !(a[i] == 'n' && a[i + 1] == ACCENT) {
      assert (a + b)[i] == a[i] && (a + b)[i + 1] == a[i + 1];
    }
    forall i | 0 <= i < |b| - 1 ensures !(b[i] == 'n' && b[i + 1] == ACCENT) {
      assert (a + b)[|a| + i] == b[i] && (a + b)[|a| + i + 1] == b[i + 1];
    }
  }

  // ----- the document -----

  function Statement(): string {
    ['x', '\n', ACCENT, 'y']
  }

  /** The statement as it is escaped, and as the escape arrives. */
  function Raw(): string {
    ['x', '\\', 'n', ACCENT, 'y']
  }

  function Composed(): string {
    ['x', '\\', N_ACUTE, 'y']
  }

  function FactOf(statement: string): Value {
    Obj([Member("statement", Str(statement))])
  }

  function Sorted(): seq<Member<Value>> {
    [Member("facts", Arr([FactOf(Statement())]))] + Others()
  }

  function Others(): seq<Member<Value>> {
    [Member("label", Str(EVIDENCE_LABEL)), Member("omitted_count", Int(0)), Member("trusted_company_facts", Arr([])), Member("unknowns", Arr([]))]
  }

  lemma LetterOrders(a: string, b: string)
    requires a != "" && b != "" && (a[0] as int) < 0x80 && (b[0] as int) < 0x80 && a[0] < b[0]
    ensures KeyLess(a, b) && !KeyLess(b, a)
  {
    KeyTotal(a, b);
    assert Hex.Units(a)[0] == a[0] as int && Hex.Units(b)[0] == b[0] as int;
  }

  /** Five members whose keys begin with different letters, sorted. */
  lemma SortFive(l: Member<Value>, f: Member<Value>, u: Member<Value>, t: Member<Value>, o: Member<Value>)
    requires l.key == "label" && f.key == "facts" && u.key == "unknowns" && t.key == "trusted_company_facts" && o.key == "omitted_count"
    ensures Sort([l, f, u, t, o]) == [f, l, o, t, u]
  {
    hide KeyLess;
    LetterOrders("facts", "label");
    LetterOrders("facts", "omitted_count");
    LetterOrders("label", "omitted_count");
    LetterOrders("omitted_count", "trusted_company_facts");
    LetterOrders("trusted_company_facts", "unknowns");
    LetterOrders("omitted_count", "unknowns");
    assert [l, f, u, t, o][1..] == [f, u, t, o] && [f, u, t, o][1..] == [u, t, o] && [u, t, o][1..] == [t, o] && [t, o][1..] == [o];
    assert [o][1..] == [];
    assert Sort([o]) == [o];
    InsertLast(t, [o]);
    assert Sort([t, o]) == [o, t];
    InsertLast(u, [o, t]);
    assert Sort([u, t, o]) == [o, t, u];
    assert Sort([f, u, t, o]) == [f, o, t, u];
    assert [f, o, t, u][1..] == [o, t, u];
    assert Insert(l, [o, t, u]) == [l] + [o, t, u];
  }

  lemma {:induction false} InsertLast(m: Member<Value>, sorted: seq<Member<Value>>)
    requires forall i :: 0 <= i < |sorted| ==> KeyLess(sorted[i].key, m.key)
    ensures Insert(m, sorted) == sorted + [m]
  {
    if sorted != [] {
      InsertLast(m, sorted[1..]);
      assert sorted == [sorted[0]] + sorted[1..];
    }
  }

  // ----- the two texts -----

  /** The document that states `raw`, token by token. */
  function DocWith(raw: string): JsonSyntax.Doc {
    JsonSyntax.Object("", [FactsPair(raw)] + JsonStrict.DocMembers(Others()))
  }

  function FactsPair(raw: string): JsonSyntax.Pair {
    JsonSyntax.Pair("", "facts", "", JsonSyntax.Padded("", JsonSyntax.Array("", [FactPadded(raw)]), ""))
  }

  function FactPadded(raw: string): JsonSyntax.Padded {
    JsonSyntax.Padded("", JsonSyntax.Object("", [StatementPair(raw)]), "")
  }

  function StatementPair(raw: string): JsonSyntax.Pair {
    JsonSyntax.Pair("", "statement", "", JsonSyntax.Padded("", JsonSyntax.Quote(raw), ""))
  }

  function Before(): string {
    "{\"facts\":[{\"statement\":\""
  }

  /** What follows the statement. */
  function Rest(): string {
    "\"}]," + JsonSyntax.MembersText(JsonStrict.DocMembers(Others())) + "}"
  }

  lemma ObjectOne(p: JsonSyntax.Pair)
    ensures JsonSyntax.Text(JsonSyntax.Object("", [p])) == "{" + JsonSyntax.PairText(p) + "}"
  {
    assert JsonSyntax.MembersText([p]) == JsonSyntax.PairText(p) + "";
  }

  lemma ArrayOne(p: JsonSyntax.Padded)
    ensures JsonSyntax.Text(JsonSyntax.Array("", [p])) == "[" + JsonSyntax.PaddedText(p) + "]"
  {
    assert JsonSyntax.ItemsText([p]) == JsonSyntax.PaddedText(p) + "";
  }

  lemma PairPlain(key: string, doc: JsonSyntax.Doc)
    ensures JsonSyntax.PairText(JsonSyntax.Pair("", key, "", JsonSyntax.Padded("", doc, ""))) == "\"" + key + "\":" + JsonSyntax.Text(doc)
  {
    hide JsonSyntax.Text;
    JsonStrict.Unpadded(doc);
  }

  lemma Assemble(raw: string, others: string)
    ensures "{" + ("\"" + "facts" + "\":" + ("[" + ("{" + ("\"" + "statement" + "\":" + ("\"" + raw + "\"")) + "}") + "]")) + ("," + others) + "}"
         == Before() + raw + ("\"}]," + others + "}")
  {
  }

  lemma ObjectMore(p: JsonSyntax.Pair, others: seq<JsonSyntax.Pair>)
    requires others != []
    ensures JsonSyntax.Text(JsonSyntax.Object("", [p] + others)) == "{" + JsonSyntax.PairText(p) + ("," + JsonSyntax.MembersText(others)) + "}"
  {
    JsonStrict.MembersStep(p, others);
  }

  lemma DocText(raw: string)
    ensures JsonSyntax.Text(DocWith(raw)) == Before() + raw + Rest()
  {
    hide JsonSyntax.Text, JsonSyntax.PairText, JsonSyntax.MembersText, JsonStrict.DocMembers;
    var fact := JsonSyntax.Object("", [StatementPair(raw)]);
    assert JsonSyntax.Text(JsonSyntax.Quote(raw)) == "\"" + raw + "\"" by { QuoteText(raw); }
    PairPlain("statement", JsonSyntax.Quote(raw));
    ObjectOne(StatementPair(raw));
    JsonStrict.Unpadded(fact);
    ArrayOne(FactPadded(raw));
    PairPlain("facts", JsonSyntax.Array("", [FactPadded(raw)]));
    ObjectMore(FactsPair(raw), JsonStrict.DocMembers(Others()));
    Assemble(raw, JsonSyntax.MembersText(JsonStrict.DocMembers(Others())));
  }

  lemma QuoteText(raw: string)
    ensures JsonSyntax.Text(JsonSyntax.Quote(raw)) == "\"" + raw + "\""
  {
  }

  lemma StatementQuotes()
    ensures QuoteBody(Statement()) == Raw() && Acute(Statement()) == Statement() && NoPair(Statement())
    ensures JsonParser.Decode(Composed()) == None && JsonSyntax.RawString(Composed()) && JsonSyntax.RawString(Raw())
  {
    AcuteFixes(Statement());
    assert Statement()[1..] == ['\n', ACCENT, 'y'] && Statement()[1..][1..] == [ACCENT, 'y'] && Statement()[1..][1..][1..] == ['y'];
    assert QuoteBody(['y']) == ['y'];
    assert QuoteBody([ACCENT, 'y']) == [ACCENT, 'y'];
    assert QuoteBody(['\n', ACCENT, 'y']) == ['\\', 'n', ACCENT, 'y'];
    assert Composed()[1..] == ['\\', N_ACUTE, 'y'] && Composed()[1..][2..] == ['y'] && ['y'][1..] == [];
    assert Raw()[1..] == ['\\', 'n', ACCENT, 'y'] && Raw()[1..][2..] == [ACCENT, 'y'] && [ACCENT, 'y'][1..] == ['y'];
    assert JsonSyntax.RawString(['y']) && JsonSyntax.RawString([ACCENT, 'y']) && JsonSyntax.RawString(Raw()[1..]);
    assert JsonParser.DecodeOne(Composed()[1..]) == None;
  }

  // ----- what is written -----

  function Evidenced(): seq<Item> {
    [Item(Fact, FactOf(Statement()))]
  }

  lemma OneOf(item: Item, group: Group)
    ensures Values([item], group) == if group == item.group then [item.value] else []
  {
    assert [item][1..] == [];
  }

  predicate Word(text: string) {
    forall i :: 0 <= i < |text| ==> 'A' <= text[i] <= 'Z' || 'a' <= text[i] <= 'z' || text[i] == '_'
  }

  lemma WordStays(word: string)
    requires Word(word)
    ensures Acute(word) == word && QuoteBody(word) == word
  {
    AcuteFixes(word);
    WordQuotes(word);
  }

  /** A member normalization and sorting leave alone. */
  predicate Normalized(m: Member<Value>) {
    Acute(m.key) == m.key && Normal(m.value, Acute) == m.value
  }

  lemma {:induction false} NormalEach(members: seq<Member<Value>>)
    requires forall i :: 0 <= i < |members| ==> Normalized(members[i])
    ensures NormalMembers(members, Acute) == members
  {
    if members != [] {
      NormalEach(members[1..]);
      assert members == [members[0]] + members[1..];
    }
  }

  lemma OneMember(m: Member<Value>)
    requires Normalized(m)
    ensures Normal(Arr([Obj([m])]), Acute) == Arr([Obj([m])])
  {
    hide Normalized;
    var members, fact := [m], Obj([m]);
    NormalEach(members);
    assert members[1..] == [] && Sort(members) == members;
    assert Normal(fact, Acute) == fact;
    assert [fact][1..] == [];
    assert NormalItems([fact], Acute) == [fact];
  }

  lemma FiveNormal(l: Member<Value>, f: Member<Value>, u: Member<Value>, t: Member<Value>, o: Member<Value>)
    requires l.key == "label" && f.key == "facts" && u.key == "unknowns" && t.key == "trusted_company_facts" && o.key == "omitted_count"
    requires Normalized(l) && Normalized(f) && Normalized(u) && Normalized(t) && Normalized(o)
    ensures Normal(Obj([l, f, u, t, o]), Acute) == Obj([f, l, o, t, u])
  {
    hide Normalized, Acute, Sort;
    NormalEach([l, f, u, t, o]);
    SortFive(l, f, u, t, o);
  }

  lemma NormalizedWord(key: string, value: Value)
    requires Word(key) && Normal(value, Acute) == value
    ensures Normalized(Member(key, value))
  {
    WordStays(key);
  }

  lemma PlainNormal()
    ensures Normal(Arr([]), Acute) == Arr([]) && Normal(Int(0), Acute) == Int(0)
  {
  }

  lemma TextNormal(text: string)
    requires NoPair(text)
    ensures Normal(Str(text), Acute) == Str(text)
  {
    AcuteFixes(text);
  }

  lemma DocumentIsNormal()
    ensures Normal(Obj(DocumentOf(Evidenced(), 0)), Acute) == Obj(Sorted())
  {
    hide Acute, Values, Normal, Normalized, NoPair, Word, Statement, Sort;
    var item := Item(Fact, FactOf(Statement()));
    OneOf(item, Fact);
    OneOf(item, Unknown);
    OneOf(item, Company);
    PlainNormal();
    StatementQuotes();
    TextNormal(Statement());
    AllWords();
    NormalizedWord("statement", Str(Statement()));
    OneMember(Member("statement", Str(Statement())));
    LabelNormal();
    var first, facts := Member("label", Str(EVIDENCE_LABEL)), Member("facts", Arr([FactOf(Statement())]));
    var unknowns, company := Member("unknowns", Arr([])), Member("trusted_company_facts", Arr([]));
    var omitted := Member("omitted_count", Int(0));
    NormalizedWord("label", first.value);
    NormalizedWord("facts", facts.value);
    NormalizedWord("unknowns", Arr([]));
    NormalizedWord("trusted_company_facts", Arr([]));
    NormalizedWord("omitted_count", Int(0));
    FiveNormal(first, facts, unknowns, company, omitted);
    assert DocumentOf(Evidenced(), 0) == [first, facts, unknowns, company, omitted];
    assert Sorted() == [facts, first, omitted, company, unknowns];
  }

  lemma AllWords()
    ensures Word("label") && Word("facts") && Word("unknowns") && Word("trusted_company_facts") && Word("omitted_count")
    ensures Word("statement") && Word(EVIDENCE_LABEL)
  {
  }

  lemma LabelNormal()
    ensures Normal(Str(EVIDENCE_LABEL), Acute) == Str(EVIDENCE_LABEL)
  {
    hide Acute, QuoteBody;
    AllWords();
    WordStays(EVIDENCE_LABEL);
  }

  lemma OnePair(m: Member<Value>)
    requires QuoteBody(m.key) == m.key
    ensures JsonStrict.DocOf(Obj([m])) ==
            JsonSyntax.Object("", [JsonSyntax.Pair("", m.key, "", JsonSyntax.Padded("", JsonStrict.DocOf(m.value), ""))])
  {
    hide QuoteBody;
    assert [m][1..] == [];
    assert JsonStrict.DocMembers([m]) == [JsonSyntax.Pair("", m.key, "", JsonSyntax.Padded("", JsonStrict.DocOf(m.value), ""))] + [];
  }

  lemma OneItem(v: Value)
    ensures JsonStrict.DocOf(Arr([v])) == JsonSyntax.Array("", [JsonSyntax.Padded("", JsonStrict.DocOf(v), "")])
  {
    assert [v][1..] == [];
    assert JsonStrict.DocItems([v]) == [JsonSyntax.Padded("", JsonStrict.DocOf(v), "")] + [];
  }

  lemma TextDoc(text: string)
    ensures JsonStrict.DocOf(Str(text)) == JsonSyntax.Quote(QuoteBody(text))
  {
  }

  lemma MoreMembers(m: Member<Value>, others: seq<Member<Value>>)
    requires QuoteBody(m.key) == m.key
    ensures JsonStrict.DocOf(Obj([m] + others)) ==
            JsonSyntax.Object("", [JsonSyntax.Pair("", m.key, "", JsonSyntax.Padded("", JsonStrict.DocOf(m.value), ""))] + JsonStrict.DocMembers(others))
  {
    hide QuoteBody;
    assert ([m] + others)[1..] == others;
  }

  lemma SortedDoc()
    ensures JsonStrict.DocOf(Obj(Sorted())) == DocWith(Raw())
  {
    hide QuoteBody, JsonStrict.DocOf, JsonStrict.DocMembers, Statement, Raw, Word, Others, Acute;
    AllWords();
    WordStays("facts");
    WordStays("statement");
    StatementQuotes();
    TextDoc(Statement());
    var statement, fact := Member("statement", Str(Statement())), FactOf(Statement());
    OnePair(statement);
    OneItem(fact);
    MoreMembers(Member("facts", Arr([fact])), Others());
  }

  /** The document as it is written. */
  lemma DocumentText()
    ensures Canonical(Obj(DocumentOf(Evidenced(), 0)), Acute) == Before() + Raw() + Rest()
  {
    hide Canonical, Print, JsonSyntax.Text, Normal, DocumentOf, Rest, Before, Raw, Sorted, DocWith, JsonStrict.DocOf, Evidenced, Acute;
    CanonicalPrintsNormal(Obj(DocumentOf(Evidenced(), 0)), Acute);
    DocumentIsNormal();
    JsonStrict.DocPrints(Obj(Sorted()));
    SortedDoc();
    DocText(Raw());
  }

  // ----- what arrives -----

  lemma {:induction false} PrintedEach(members: seq<Member<Value>>)
    ensures forall i :: 0 <= i < |members| ==> PrintMembers(members)[i] == Member(members[i].key, Print(members[i].value))
  {
    if members != [] {
      PrintedEach(members[1..]);
    }
  }

  /** A member whose key and printed value normalization leaves alone. */
  ghost predicate Calm(m: Member<Value>) {
    Settled(Quoted(m.key), Acute) && Settled(Print(m.value), Acute) && Headed(Print(m.value))
  }

  lemma CalmPrinted(members: seq<Member<Value>>)
    requires forall i :: 0 <= i < |members| ==> Calm(members[i])
    ensures EachSettled(PrintMembers(members), Acute) && ValuesHeaded(PrintMembers(members))
  {
    hide Settled, Quoted, Print, Headed, Acute;
    var printed := PrintMembers(members);
    PrintedEach(members);
    forall m | m in printed ensures Settled(Quoted(m.key), Acute) && Settled(m.value, Acute) && Headed(m.value) {
      var i :| 0 <= i < |printed| && printed[i] == m;
      assert Calm(members[i]);
    }
  }

  lemma CalmMembers(members: seq<Member<Value>>)
    requires members != [] && forall i :: 0 <= i < |members| ==> Calm(members[i])
    ensures Settled(JsonSyntax.MembersText(JsonStrict.DocMembers(members)), Acute)
    ensures Headed(JsonSyntax.MembersText(JsonStrict.DocMembers(members)))
  {
    hide AsciiLaws, Settled, Headed, Acute, EachSettled, ValuesHeaded, Calm, PrintMembers, Commas, JsonSyntax.MembersText;
    var printed := PrintMembers(members);
    AcuteIsLawful();
    CalmPrinted(members);
    JsonStrict.DocMembersPrint(members);
    MemberTextsSettle(printed, Acute);
    TextsAreHeaded(printed);
    CommasHeaded(MemberTexts(printed));
    CommasSettle(MemberTexts(printed), Acute);
  }

  lemma WordSettles(word: string)
    requires Word(word)
    ensures Settled(Quoted(word), Acute) && Headed(Quoted(word))
  {
    hide AsciiLaws, Acute;
    AcuteIsLawful();
    KeySteady(word, Acute);
    WordStays(word);
  }

  lemma PlainPrints()
    ensures Print(Int(0)) == "0" && Print(Arr([])) == "[]"
    ensures Settled("0", Acute) && Settled("[]", Acute)
  {
    AcuteFixes("0");
    AcuteFixes("[]");
  }

  lemma LabelPrints()
    ensures Print(Str(EVIDENCE_LABEL)) == Quoted(EVIDENCE_LABEL)
  {
    hide Quoted;
  }

  lemma OthersSettle()
    ensures Settled(JsonSyntax.MembersText(JsonStrict.DocMembers(Others())), Acute)
    ensures Headed(JsonSyntax.MembersText(JsonStrict.DocMembers(Others())))
  {
    hide Settled, Quoted, Print, Acute, Word, JsonSyntax.MembersText, JsonStrict.DocMembers;
    AllWords();
    WordSettles("label");
    WordSettles("omitted_count");
    WordSettles("trusted_company_facts");
    WordSettles("unknowns");
    WordSettles(EVIDENCE_LABEL);
    PlainPrints();
    LabelPrints();
    CalmMembers(Others());
  }

  lemma RestSettles()
    ensures Settled(['y'] + Rest(), Acute)
  {
    hide AsciiLaws, Settled, JsonSyntax.MembersText, JsonStrict.DocMembers, Acute, Headed;
    var others := JsonSyntax.MembersText(JsonStrict.DocMembers(Others()));
    AcuteIsLawful();
    OthersSettle();
    BracketsSettle("y\"}],", others, "}", Acute);
    TailText(others);
  }

  lemma TailText(others: string)
    ensures ['y'] + ("\"}]," + others + "}") == "y\"}]," + others + "}"
  {
  }

  function Head(): string {
    Before() + ['x', '\\']
  }

  function Tail(): string {
    ['y'] + Rest()
  }

  lemma Halves(before: string, rest: string)
    ensures before + Raw() + rest == (before + ['x', '\\']) + (['n', ACCENT] + (['y'] + rest))
    ensures before + Composed() + rest == (before + ['x', '\\']) + ([N_ACUTE] + (['y'] + rest))
  {
  }

  lemma HeadIsAscii()
    ensures Ascii(Head())
  {
  }

  lemma AccentArrives(tail: string)
    requires Acute(tail) == tail
    ensures Acute(['n', ACCENT] + tail) == [N_ACUTE] + tail
  {
    assert (['n', ACCENT] + tail)[2..] == tail;
  }

  /** Normalization takes the n of the escape. */
  lemma DocumentArrives()
    ensures Acute(Before() + Raw() + Rest()) == Before() + Composed() + Rest()
  {
    hide Rest, Before, Acute, Raw, Composed, AsciiLaws;
    RestSettles();
    HeadIsAscii();
    AcuteIsLawful();
    AsciiSettles(Head(), Acute);
    AcuteSplits(Head(), ['n', ACCENT] + Tail());
    AccentArrives(Tail());
    Halves(Before(), Rest());
  }

  lemma LengthOfTwo(a: string, b: string)
    ensures Utf8.Length(a + b) == Utf8.Length(a) + Utf8.Length(b)
  {
    Utf8.EncodeConcat(a, b);
  }

  lemma AccentLengths()
    ensures Utf8.Length(['n', ACCENT]) == Utf8.Length([N_ACUTE]) + 1
  {
    LengthOfTwo(['n'], [ACCENT]);
    assert ['n'] + [ACCENT] == ['n', ACCENT];
    OneLength('n');
    OneLength(ACCENT);
    OneLength(N_ACUTE);
  }

  lemma OneLength(c: char)
    ensures Utf8.Length([c]) == |Utf8.EncodeChar(c)|
  {
    assert [c][1..] == [];
    assert Utf8.Encode([c]) == Utf8.EncodeChar(c) + [];
  }

  lemma AByteShorter()
    ensures Utf8.Length(Before() + Composed() + Rest()) == Utf8.Length(Before() + Raw() + Rest()) - 1
  {
    hide Rest, Before, Raw, Composed, Utf8.Encode;
    Halves(Before(), Rest());
    LengthOfTwo(Head(), ['n', ACCENT] + Tail());
    LengthOfTwo(['n', ACCENT], Tail());
    LengthOfTwo(Head(), [N_ACUTE] + Tail());
    LengthOfTwo([N_ACUTE], Tail());
    AccentLengths();
  }

  // ----- what arrives is no JSON -----

  lemma OthersGrammar(members: seq<Member<Value>>)
    requires members == Others()
    ensures forall i :: 0 <= i < |JsonStrict.DocMembers(members)| ==> JsonSyntax.GrammarPair(JsonStrict.DocMembers(members)[i])
  {
    hide JsonStrict.DocMembers, JsonSyntax.GrammarPair;
    LabelIsAllowed(EVIDENCE_LABEL);
    JsonStrict.DocMembersDenote(members, Same);
  }

  function Same(text: string): string {
    text
  }

  lemma LabelIsAllowed(text: string)
    requires Word(text)
    ensures TextRule.Allowed(text)
  {
  }

  lemma PairGrammar(key: string, doc: JsonSyntax.Doc)
    requires JsonSyntax.RawString(key) && JsonSyntax.Grammar(doc)
    ensures JsonSyntax.GrammarPair(JsonSyntax.Pair("", key, "", JsonSyntax.Padded("", doc, "")))
    ensures JsonSyntax.GrammarPadded(JsonSyntax.Padded("", doc, ""))
  {
    hide JsonSyntax.RawString;
  }

  lemma WordIsRaw(word: string)
    requires Word(word)
    ensures JsonSyntax.RawString(word)
  {
    WordStays(word);
    JsonStrict.QuoteIsRaw(word);
  }

  lemma OneGrammar(p: JsonSyntax.Pair, q: JsonSyntax.Padded)
    ensures JsonSyntax.GrammarPair(p) ==> JsonSyntax.Grammar(JsonSyntax.Object("", [p]))
    ensures JsonSyntax.GrammarPadded(q) ==> JsonSyntax.Grammar(JsonSyntax.Array("", [q]))
  {
    hide JsonSyntax.GrammarPair, JsonSyntax.GrammarPadded;
  }

  lemma MoreGrammar(p: JsonSyntax.Pair, others: seq<JsonSyntax.Pair>)
    requires JsonSyntax.GrammarPair(p) && forall i :: 0 <= i < |others| ==> JsonSyntax.GrammarPair(others[i])
    ensures JsonSyntax.Grammar(JsonSyntax.Object("", [p] + others))
  {
    hide JsonSyntax.GrammarPair;
  }

  lemma GrammarWith(raw: string)
    requires JsonSyntax.RawString(raw)
    ensures JsonSyntax.Grammar(DocWith(raw))
  {
    hide JsonSyntax.RawString, JsonSyntax.GrammarPair, JsonSyntax.GrammarPadded, JsonSyntax.Grammar, JsonStrict.DocMembers, Others, Word;
    AllWords();
    WordIsRaw("facts");
    WordIsRaw("statement");
    assert JsonSyntax.Grammar(JsonSyntax.Quote(raw)) by { QuoteGrammar(raw); }
    PairGrammar("statement", JsonSyntax.Quote(raw));
    OneGrammar(StatementPair(raw), FactPadded(raw));
    PairGrammar("statement", JsonSyntax.Object("", [StatementPair(raw)]));
    OneGrammar(StatementPair(raw), FactPadded(raw));
    PairGrammar("facts", JsonSyntax.Array("", [FactPadded(raw)]));
    OthersGrammar(Others());
    MoreGrammar(FactsPair(raw), JsonStrict.DocMembers(Others()));
  }

  lemma QuoteGrammar(raw: string)
    requires JsonSyntax.RawString(raw)
    ensures JsonSyntax.Grammar(JsonSyntax.Quote(raw))
  {
  }

  /** A member that denotes nothing leaves the object denoting nothing. */
  lemma NothingMember(p: JsonSyntax.Pair, others: seq<JsonSyntax.Pair>)
    requires JsonParser.Denote(p.value.doc) == None
    ensures JsonParser.Denote(JsonSyntax.Object("", [p] + others)) == None
  {
    assert JsonParser.DenoteMembers([p] + others) == None;
  }

  lemma NothingItem(p: JsonSyntax.Padded)
    requires JsonParser.Denote(p.doc) == None
    ensures JsonParser.Denote(JsonSyntax.Array("", [p])) == None
  {
    assert JsonParser.DenoteItems([p]) == None;
  }

  lemma NothingQuote(raw: string)
    requires JsonParser.Decode(raw) == None
    ensures JsonParser.Denote(JsonSyntax.Quote(raw)) == None
  {
  }

  /** What arrives follows the grammar but for its escape, so it is no JSON text. */
  lemma ComposedIsNoJson()
    ensures JsonParser.ParseDocument(Before() + Composed() + Rest()) == None
  {
    hide Rest, Before, Composed, JsonParser.Denote, JsonSyntax.Grammar, JsonSyntax.Text, JsonParser.ParseDocument, JsonStrict.DocMembers, Others;
    hide JsonSyntax.RawString, JsonParser.Decode;
    var raw := Composed();
    StatementQuotes();
    DocText(raw);
    GrammarWith(raw);
    JsonStrict.Unpadded(DocWith(raw));
    assert JsonSyntax.GrammarPadded(JsonSyntax.Padded("", DocWith(raw), ""));
    JsonParser.ParseExact(JsonSyntax.Padded("", DocWith(raw), ""));
    NothingQuote(raw);
    NothingMember(StatementPair(raw), []);
    assert [StatementPair(raw)] + [] == [StatementPair(raw)];
    NothingItem(FactPadded(raw));
    NothingMember(FactsPair(raw), JsonStrict.DocMembers(Others()));
  }

  lemma FrameArrives(document: string)
    requires document != "" && document[0] == '{'
    ensures Acute(Frame(document)) == EVIDENCE_LABEL + "\n" + Decimal(Utf8.Length(document)) + "\n" + Acute(document)
  {
    hide AsciiLaws, Acute;
    var head := EVIDENCE_LABEL + "\n" + Decimal(Utf8.Length(document)) + "\n";
    DecimalIsAscii(Utf8.Length(document));
    AcuteIsLawful();
    AsciiSettles(head, Acute);
    AcuteSplits(head, document);
    assert Frame(document) == head + document;
  }

  /** The host receives a frame whose document is a byte shorter than the frame says, and no JSON. */
  lemma AFactBreaksTheFrame() returns (body: string)
    ensures AsciiLaws(Acute)
    ensures var members := DocumentOf(Evidenced(), 0); var document := Canonical(Obj(members), Acute);
      && Received(members, Acute) == EVIDENCE_LABEL + "\n" + Decimal(Utf8.Length(document)) + "\n" + body
      && Utf8.Length(body) == Utf8.Length(document) - 1
      && JsonParser.ParseDocument(body) == None
  {
    hide Rest, Raw, Composed, Before, Canonical, DocumentOf, JsonParser.ParseDocument, Utf8.Length, Acute, AsciiLaws, Evidenced;
    body := Before() + Composed() + Rest();
    AcuteIsLawful();
    DocumentText();
    BraceFirst(Raw(), Rest());
    DocumentArrives();
    FrameArrives(Before() + Raw() + Rest());
    ComposedIsNoJson();
    AByteShorter();
  }

  lemma BraceFirst(raw: string, rest: string)
    ensures Before() + raw + rest != "" && (Before() + raw + rest)[0] == '{'
  {
  }
}
