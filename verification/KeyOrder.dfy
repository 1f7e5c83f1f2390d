/** Object members and the order RFC 8785 section 3.2.3 writes them in: by the UTF-16 form of the key. */
module KeyOrder {
  import opened Hex

  datatype Member<+T> = Member(key: string, value: T)

  predicate LexLess(a: seq<CodeUnit>, b: seq<CodeUnit>) {
    b != [] && (a == [] || a[0] < b[0] || (a[0] == b[0] && LexLess(a[1..], b[1..])))
  }

  predicate KeyLess(a: string, b: string) {
    LexLess(Units(a), Units(b))
  }

  /** The first place where two lists of units differ, or where one of them ends. */
  predicate DifferAt(a: seq<CodeUnit>, b: seq<CodeUnit>, k: nat) {
    k <= |a| && k < |b| && a[..k] == b[..k] && (k == |a| || a[k] < b[k])
  }

  lemma DifferLater(x: CodeUnit, a: seq<CodeUnit>, b: seq<CodeUnit>, k: nat)
    ensures DifferAt([x] + a, [x] + b, k + 1) <==> DifferAt(a, b, k)
  {
    if k <= |a| && k <= |b| {
      assert ([x] + a)[..k + 1] == [x] + a[..k] && ([x] + b)[..k + 1] == [x] + b[..k];
      if a[..k] != b[..k] {
        assert ([x] + a[..k])[1..] == a[..k] && ([x] + b[..k])[1..] == b[..k];
      }
    }
  }

  /** `a` is before `b` when at the first place where they differ it has the smaller unit, or has ended. */
  lemma {:induction false} LexExact(a: seq<CodeUnit>, b: seq<CodeUnit>)
    ensures LexLess(a, b) <==> exists k: nat :: DifferAt(a, b, k)
  {
    if a != [] && b != [] && a[0] == b[0] {
      LexExact(a[1..], b[1..]);
      assert a == [a[0]] + a[1..] && b == [b[0]] + b[1..];
      if k: nat :| DifferAt(a, b, k) {
        assert k > 0;
        DifferLater(a[0], a[1..], b[1..], k - 1);
      }
      if k: nat :| DifferAt(a[1..], b[1..], k) {
        DifferLater(a[0], a[1..], b[1..], k);
      }
    } else {
      DifferFirst(a, b);
    }
  }

  lemma DifferHead(a: seq<CodeUnit>, b: seq<CodeUnit>, k: nat)
    requires k > 0 && DifferAt(a, b, k)
    ensures a != [] && b != [] && a[0] == b[0]
  {
    assert a[..k][0] == b[..k][0];
  }

  lemma DifferFirst(a: seq<CodeUnit>, b: seq<CodeUnit>)
    requires a == [] || b == [] || a[0] != b[0]
    ensures (exists k: nat :: DifferAt(a, b, k)) <==> b != [] && (a == [] || a[0] < b[0])
  {
    forall k: nat | DifferAt(a, b, k) ensures k == 0 {
      if k > 0 {
        DifferHead(a, b, k);
      }
    }
    if b != [] && (a == [] || a[0] < b[0]) {
      assert a[..0] == b[..0] && DifferAt(a, b, 0);
    }
  }

  /** The order is not that of code points: a character beyond the basic plane comes before those at the
      end of it, by its first surrogate. */
  lemma SurrogatesFirst(c: char, d: char)
    requires c as int >= 0x1_0000 && 0xE000 <= d as int < 0x1_0000
    ensures KeyLess([c], [d]) && !KeyLess([d], [c])
  {
    assert [c][1..] == [] && [d][1..] == [];
    assert Units([c])[0] == Utf16(c)[0] && Units([d])[0] == d as int;
  }

  function Insert<T>(m: Member<T>, sorted: seq<Member<T>>): (r: seq<Member<T>>)
    ensures |r| == |sorted| + 1
  {
    if sorted == [] || !KeyLess(sorted[0].key, m.key) then [m] + sorted
    else [sorted[0]] + Insert(m, sorted[1..])
  }

  /** The stable sort of `canonical_unchecked` (json.rs 106-114). */
  function Sort<T>(members: seq<Member<T>>): (r: seq<Member<T>>)
    ensures |r| == |members|
  {
    if members == [] then [] else Insert(members[0], Sort(members[1..]))
  }

  function Keys<T>(members: seq<Member<T>>): set<string> {
    if members == [] then {} else {members[0].key} + Keys(members[1..])
  }

  predicate DistinctKeys<T>(members: seq<Member<T>>) {
    members == [] || (members[0].key !in Keys(members[1..]) && DistinctKeys(members[1..]))
  }

  predicate Below(key: string, keys: set<string>) {
    forall k :: k in keys ==> KeyLess(key, k)
  }

  predicate Ascending<T>(members: seq<Member<T>>) {
    members == [] || (Below(members[0].key, Keys(members[1..])) && Ascending(members[1..]))
  }

  lemma {:induction false} LexIrreflexive(a: seq<CodeUnit>)
    ensures !LexLess(a, a)
  {
    if a != [] {
      LexIrreflexive(a[1..]);
    }
  }

  lemma {:induction false} LexTransitive(a: seq<CodeUnit>, b: seq<CodeUnit>, c: seq<CodeUnit>)
    requires LexLess(a, b) && LexLess(b, c)
    ensures LexLess(a, c)
  {
    if a != [] && a[0] == b[0] == c[0] {
      LexTransitive(a[1..], b[1..], c[1..]);
    }
  }

  lemma {:induction false} LexTotal(a: seq<CodeUnit>, b: seq<CodeUnit>)
    ensures LexLess(a, b) || LexLess(b, a) || a == b
  {
    if a != [] && b != [] && a[0] == b[0] {
      LexTotal(a[1..], b[1..]);
    }
  }

  lemma KeyTotal(a: string, b: string)
    ensures KeyLess(a, b) || KeyLess(b, a) || a == b
    ensures !(KeyLess(a, b) && KeyLess(b, a))
    ensures KeyLess(a, b) ==> a != b
  {
    LexTotal(Units(a), Units(b));
    if Units(a) == Units(b) {
      UnitsInjective(a, b);
    }
    LexIrreflexive(Units(a));
    if KeyLess(a, b) && KeyLess(b, a) {
      LexTransitive(Units(a), Units(b), Units(a));
    }
  }

  lemma {:induction false} InsertKeys<T>(m: Member<T>, sorted: seq<Member<T>>)
    ensures multiset(Insert(m, sorted)) == multiset{m} + multiset(sorted)
    ensures Keys(Insert(m, sorted)) == {m.key} + Keys(sorted)
  {
    if sorted == [] || !KeyLess(sorted[0].key, m.key) {
      assert ([m] + sorted)[1..] == sorted;
    } else {
      InsertKeys(m, sorted[1..]);
      assert sorted == [sorted[0]] + sorted[1..];
      assert Insert(m, sorted)[1..] == Insert(m, sorted[1..]);
    }
  }

  lemma {:induction false} InsertAscending<T>(m: Member<T>, sorted: seq<Member<T>>)
    requires Ascending(sorted) && m.key !in Keys(sorted)
    ensures Ascending(Insert(m, sorted))
  {
    if sorted == [] || !KeyLess(sorted[0].key, m.key) {
      assert ([m] + sorted)[1..] == sorted;
      forall k | k in Keys(sorted) ensures KeyLess(m.key, k) {
        KeyTotal(m.key, sorted[0].key);
        if k != sorted[0].key {
          LexTransitive(Units(m.key), Units(sorted[0].key), Units(k));
        }
      }
    } else {
      InsertAscending(m, sorted[1..]);
      InsertKeys(m, sorted[1..]);
      assert Insert(m, sorted)[1..] == Insert(m, sorted[1..]);
    }
  }

  /** Sorting only reorders, and puts distinct keys strictly in order. */
  lemma {:induction false} SortOrders<T>(members: seq<Member<T>>)
    ensures multiset(Sort(members)) == multiset(members)
    ensures Keys(Sort(members)) == Keys(members)
    ensures DistinctKeys(members) ==> Ascending(Sort(members))
  {
    if members != [] {
      SortOrders(members[1..]);
      assert members == [members[0]] + members[1..];
      InsertKeys(members[0], Sort(members[1..]));
      if DistinctKeys(members) {
        InsertAscending(members[0], Sort(members[1..]));
      }
    }
  }

  lemma {:induction false} AscendingDistinct<T>(members: seq<Member<T>>)
    requires Ascending(members)
    ensures DistinctKeys(members)
  {
    if members != [] {
      KeyTotal(members[0].key, members[0].key);
      AscendingDistinct(members[1..]);
    }
  }

  /** Two ascending lists over the same keys start with the same key, and go on so. */
  lemma SameFirstKey<S, T>(a: seq<Member<S>>, b: seq<Member<T>>)
    requires a != [] && b != [] && Ascending(a) && Ascending(b) && Keys(a) == Keys(b)
    ensures a[0].key == b[0].key
    ensures Keys(a[1..]) == Keys(b[1..])
  {
    assert a[0].key in Keys(b) && b[0].key in Keys(a);
    KeyTotal(a[0].key, b[0].key);
    AscendingDistinct(a);
    AscendingDistinct(b);
    assert Keys(a[1..]) == Keys(a) - {a[0].key};
    assert Keys(b[1..]) == Keys(b) - {b[0].key};
  }
}
