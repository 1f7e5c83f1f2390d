/** Normal values: each well-formed value has one with its meaning, and no two share a meaning. */
module JsonNormal {
  import opened KeyOrder
  import opened JsonValue
  import TextRule

  ghost predicate FixedKeys(keys: set<string>, nfc: string -> string) {
    forall k :: k in keys ==> nfc(k) == k
  }

  lemma {:induction false} MeaningDomain(members: seq<Member<Value>>, nfc: string -> string)
    requires FixedKeys(Keys(members), nfc)
    ensures MeaningMembers(members, nfc).Keys == Keys(members)
  {
    if members != [] {
      MeaningDomain(members[1..], nfc);
    }
  }

  lemma {:induction false} InsertMeaning(m: Member<Value>, sorted: seq<Member<Value>>, nfc: string -> string)
    requires FixedKeys(Keys(sorted) + {m.key}, nfc) && m.key !in Keys(sorted)
    ensures MeaningMembers(Insert(m, sorted), nfc) == MeaningMembers(sorted, nfc)[m.key := Meaning(m.value, nfc)]
  {
    if sorted == [] || !KeyLess(sorted[0].key, m.key) {
      assert ([m] + sorted)[1..] == sorted;
    } else {
      InsertMeaning(m, sorted[1..], nfc);
      assert Insert(m, sorted)[1..] == Insert(m, sorted[1..]);
    }
  }

  lemma {:induction false} SortMeaning(members: seq<Member<Value>>, nfc: string -> string)
    requires FixedKeys(Keys(members), nfc) && DistinctKeys(members)
    ensures MeaningMembers(Sort(members), nfc) == MeaningMembers(members, nfc)
  {
    if members != [] {
      SortMeaning(members[1..], nfc);
      SortOrders(members[1..]);
      InsertMeaning(members[0], Sort(members[1..]), nfc);
    }
  }

  lemma {:induction false} NormalMembersKeys(members: seq<Member<Value>>, nfc: string -> string)
    requires NfcLaws(nfc)
    ensures forall k :: k in Keys(NormalMembers(members, nfc)) <==> exists i :: 0 <= i < |members| && k == nfc(members[i].key)
    ensures FixedKeys(Keys(NormalMembers(members, nfc)), nfc)
    ensures DistinctUnder(members, nfc) ==> DistinctKeys(NormalMembers(members, nfc))
  {
    if members != [] {
      var tail := members[1..];
      NormalMembersKeys(tail, nfc);
      assert NormalMembers(members, nfc)[1..] == NormalMembers(tail, nfc);
      assert forall i :: 0 <= i < |tail| ==> tail[i] == members[i + 1];
      forall k ensures k in Keys(NormalMembers(members, nfc)) <==> exists i :: 0 <= i < |members| && k == nfc(members[i].key) {
        if i :| 0 <= i < |members| && k == nfc(members[i].key) {
          if i > 0 {
            assert k == nfc(tail[i - 1].key);
          }
        }
        if k in Keys(NormalMembers(tail, nfc)) {
          var i :| 0 <= i < |tail| && k == nfc(tail[i].key);
          assert k == nfc(members[i + 1].key);
        }
      }
    }
  }

  /** Normalising changes nothing a value says. */
  lemma {:induction false} NormalKeepsMeaning(v: Value, nfc: string -> string)
    requires NfcLaws(nfc) && WellFormed(v, nfc)
    ensures Meaning(Normal(v, nfc), nfc) == Meaning(v, nfc)
  {
    match v
    case Arr(items) => NormalItemsKeepMeaning(items, nfc);
    case Obj(members) =>
      NormalMembersKeepMeaning(members, nfc);
      NormalMembersKeys(members, nfc);
      SortMeaning(NormalMembers(members, nfc), nfc);
    case _ =>
  }

  lemma {:induction false} NormalItemsKeepMeaning(items: seq<Value>, nfc: string -> string)
    requires NfcLaws(nfc) && forall i :: 0 <= i < |items| ==> WellFormed(items[i], nfc)
    ensures MeaningItems(NormalItems(items, nfc), nfc) == MeaningItems(items, nfc)
  {
    if items != [] {
      NormalKeepsMeaning(items[0], nfc);
      NormalItemsKeepMeaning(items[1..], nfc);
    }
  }

  lemma {:induction false} NormalMembersKeepMeaning(members: seq<Member<Value>>, nfc: string -> string)
    requires NfcLaws(nfc) && forall i :: 0 <= i < |members| ==> WellFormed(members[i].value, nfc)
    ensures MeaningMembers(NormalMembers(members, nfc), nfc) == MeaningMembers(members, nfc)
  {
    if members != [] {
      NormalKeepsMeaning(members[0].value, nfc);
      NormalMembersKeepMeaning(members[1..], nfc);
      assert NormalMembers(members, nfc)[1..] == NormalMembers(members[1..], nfc);
    }
  }

  ghost predicate NormalEach(members: seq<Member<Value>>, nfc: string -> string) {
    forall m :: m in members ==> TextRule.Allowed(m.key) && nfc(m.key) == m.key && IsNormal(m.value, nfc) && WellFormed(m.value, nfc)
  }

  /** The normal value of a well-formed value is normal, and itself well formed. */
  lemma {:induction false} NormalIsNormal(v: Value, nfc: string -> string)
    requires NfcLaws(nfc) && WellFormed(v, nfc)
    ensures IsNormal(Normal(v, nfc), nfc) && WellFormed(Normal(v, nfc), nfc)
  {
    match v
    case Arr(items) => NormalItemsAreNormal(items, nfc);
    case Obj(members) =>
      NormalMembersAreNormal(members, nfc);
      NormalMembersKeys(members, nfc);
      SortedIsNormal(NormalMembers(members, nfc), nfc);
    case _ =>
  }

  lemma SortedIsNormal(members: seq<Member<Value>>, nfc: string -> string)
    requires NormalEach(members, nfc) && DistinctKeys(members)
    ensures IsNormal(Obj(Sort(members)), nfc) && WellFormed(Obj(Sort(members)), nfc)
  {
    var sorted := Sort(members);
    SortOrders(members);
    forall m | m in sorted ensures m in members {
      assert m in multiset(sorted);
    }
    assert NormalEach(sorted, nfc);
    AscendingDistinct(sorted);
    DistinctFixed(sorted, nfc);
  }

  lemma {:induction false} NormalItemsAreNormal(items: seq<Value>, nfc: string -> string)
    requires NfcLaws(nfc) && forall i :: 0 <= i < |items| ==> WellFormed(items[i], nfc)
    ensures forall i :: 0 <= i < |items| ==> IsNormal(NormalItems(items, nfc)[i], nfc) && WellFormed(NormalItems(items, nfc)[i], nfc)
  {
    if items != [] {
      NormalIsNormal(items[0], nfc);
      NormalItemsAreNormal(items[1..], nfc);
    }
  }

  lemma {:induction false} NormalMembersAreNormal(members: seq<Member<Value>>, nfc: string -> string)
    requires NfcLaws(nfc)
    requires forall i :: 0 <= i < |members| ==> TextRule.Allowed(members[i].key) && WellFormed(members[i].value, nfc)
    ensures NormalEach(NormalMembers(members, nfc), nfc)
  {
    if members != [] {
      NormalIsNormal(members[0].value, nfc);
      NormalMembersAreNormal(members[1..], nfc);
    }
  }

  lemma {:induction false} DistinctFixed(members: seq<Member<Value>>, nfc: string -> string)
    requires DistinctKeys(members) && forall m :: m in members ==> nfc(m.key) == m.key
    ensures DistinctUnder(members, nfc)
    ensures forall i :: 0 <= i < |members| ==> members[i].key in Keys(members)
  {
    if members != [] {
      var tail := members[1..];
      DistinctFixed(tail, nfc);
      assert forall i :: 0 < i < |members| ==> members[i] == tail[i - 1];
      forall i, j | 0 <= i < j < |members| ensures nfc(members[i].key) != nfc(members[j].key) {
        assert members[i] in members && members[j] in members && tail[j - 1].key in Keys(tail);
      }
    }
  }

  /** A meaning has one normal value. */
  lemma {:induction false} MeaningDeterminesNormal(u: Value, w: Value, nfc: string -> string)
    requires IsNormal(u, nfc) && IsNormal(w, nfc) && Meaning(u, nfc) == Meaning(w, nfc)
    ensures u == w
  {
    match u
    case Arr(items) => MeaningDeterminesItems(items, w.items, nfc);
    case Obj(members) =>
      MeaningDeterminesMembers(members, w.members, nfc);
    case _ =>
  }

  lemma {:induction false} MeaningDeterminesItems(a: seq<Value>, b: seq<Value>, nfc: string -> string)
    requires MeaningItems(a, nfc) == MeaningItems(b, nfc)
    requires forall i :: 0 <= i < |a| ==> IsNormal(a[i], nfc)
    requires forall i :: 0 <= i < |b| ==> IsNormal(b[i], nfc)
    ensures a == b
  {
    if a != [] && b != [] {
      var x, y := MeaningItems(a, nfc), MeaningItems(b, nfc);
      assert x[0] == y[0] && x[1..] == MeaningItems(a[1..], nfc) && y[1..] == MeaningItems(b[1..], nfc);
      MeaningDeterminesNormal(a[0], b[0], nfc);
      MeaningDeterminesItems(a[1..], b[1..], nfc);
      assert a == [a[0]] + a[1..] && b == [b[0]] + b[1..];
    }
  }

  lemma {:induction false} MeaningDeterminesMembers(a: seq<Member<Value>>, b: seq<Member<Value>>, nfc: string -> string)
    requires MeaningMembers(a, nfc) == MeaningMembers(b, nfc)
    requires Ascending(a) && forall i :: 0 <= i < |a| ==> nfc(a[i].key) == a[i].key && IsNormal(a[i].value, nfc)
    requires Ascending(b) && forall i :: 0 <= i < |b| ==> nfc(b[i].key) == b[i].key && IsNormal(b[i].value, nfc)
    ensures a == b
  {
    FixedFromIndices(a, nfc);
    FixedFromIndices(b, nfc);
    MeaningDomain(a, nfc);
    MeaningDomain(b, nfc);
    if a != [] && b != [] {
      SameFirstKey(a, b);
      MeaningDomain(a[1..], nfc);
      MeaningDomain(b[1..], nfc);
      AscendingDistinct(a);
      AscendingDistinct(b);
      assert MeaningMembers(a[1..], nfc) == MeaningMembers(a, nfc) - {a[0].key};
      assert MeaningMembers(b[1..], nfc) == MeaningMembers(b, nfc) - {b[0].key};
      MeaningDeterminesNormal(a[0].value, b[0].value, nfc);
      MeaningDeterminesMembers(a[1..], b[1..], nfc);
      assert a == [a[0]] + a[1..] && b == [b[0]] + b[1..];
    } else {
      assert a == [] && b == [];
    }
  }

  lemma {:induction false} FixedFromIndices(members: seq<Member<Value>>, nfc: string -> string)
    requires forall i :: 0 <= i < |members| ==> nfc(members[i].key) == members[i].key
    ensures FixedKeys(Keys(members), nfc)
  {
    if members != [] {
      FixedFromIndices(members[1..], nfc);
    }
  }

  /** Normalising twice is normalising once. */
  lemma NormalIdempotent(v: Value, nfc: string -> string)
    requires NfcLaws(nfc) && WellFormed(v, nfc)
    ensures Normal(Normal(v, nfc), nfc) == Normal(v, nfc)
  {
    var w := Normal(v, nfc);
    NormalIsNormal(v, nfc);
    NormalIsNormal(w, nfc);
    NormalKeepsMeaning(w, nfc);
    MeaningDeterminesNormal(Normal(w, nfc), w, nfc);
  }
}
