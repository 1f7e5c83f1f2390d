/** Packing observations into classifier requests (classifier.rs 110-151). */
module Batches {
  import opened Wrappers
  import opened KeyOrder
  import opened JsonValue
  import opened JsonWriter
  import opened Weights
  import TextRule
  import Utf8

  const CLASSIFIER_REQUEST_LIMIT: nat := 1024 * 1024

  function Request(observations: seq<Value>): Value {
    Obj([Member("observations", Arr(observations))])
  }

  /** The length of `canonical_bytes`: of the canonical text, or of the marker that stands for a
      request the canonical rule refuses. */
  function RequestSize(observations: seq<Value>, nfc: string -> string, marker: Value -> nat): nat {
    if Validate(Request(observations), nfc).None? then Utf8.Length(Canonical(Request(observations), nfc))
    else marker(Request(observations))
  }

  type Size = seq<Value> -> nat

  predicate Fits(observations: seq<Value>, size: Size) {
    size(observations) <= CLASSIFIER_REQUEST_LIMIT
  }

  /** The greedy packing from a state of the loop: the batch open from `start`, up to `next`. */
  function Pack(all: seq<Value>, start: nat, next: nat, size: Size): Option<seq<seq<Value>>>
    requires start <= next <= |all|
    decreases |all| - next
  {
    if next == |all| then Some(Closed(all[start..next]))
    else if Fits(all[start..next + 1], size) then Pack(all, start, next + 1, size)
    else if !Fits([all[next]], size) then None
    else match Pack(all, next, next + 1, size)
      case None => None
      case Some(rest) => Some(Closed(all[start..next]) + rest)
  }

  function Closed(batch: seq<Value>): seq<seq<Value>> {
    if batch == [] then [] else [batch]
  }

  /** `request_batches`: the batches, or the size of the observation that fits in none. */
  method RequestBatches(observations: seq<Value>, size: Size) returns (r: Result<seq<seq<Value>>, nat>)
    ensures observations == [] ==> r == Ok([[]])
    ensures observations != [] ==> (r.Ok? <==> Pack(observations, 0, 0, size).Some?)
    ensures observations != [] && r.Ok? ==> r.value == Pack(observations, 0, 0, size).value
    ensures r.Err? ==> r.error > CLASSIFIER_REQUEST_LIMIT && exists i :: 0 <= i < |observations| && r.error == size([observations[i]])
  {
    if observations == [] {
      return Ok([[]]);
    }
    var batches: seq<seq<Value>> := [];
    var current: seq<Value> := [];
    ghost var start := 0;
    for i := 0 to |observations|
      invariant start <= i && current == observations[start..i]
      invariant Pack(observations, 0, 0, size).Some? <==> Pack(observations, start, i, size).Some?
      invariant Pack(observations, 0, 0, size).Some? ==>
        Pack(observations, 0, 0, size).value == batches + Pack(observations, start, i, size).value
    {
      var observation := observations[i];
      var candidate := current + [observation];
      assert candidate == observations[start..i + 1];
      if size(candidate) <= CLASSIFIER_REQUEST_LIMIT {
        current := candidate;
        continue;
      }
      ghost var open := Closed(current);
      if current != [] {
        batches := batches + [current];
        candidate := [observation];
      }
      assert candidate == [observation];
      var bytes := size(candidate);
      if bytes > CLASSIFIER_REQUEST_LIMIT {
        return Err(bytes);
      }
      if Pack(observations, i, i + 1, size).Some? {
        Associate(batches[..|batches| - |open|], open, Pack(observations, i, i + 1, size).value);
        assert batches == batches[..|batches| - |open|] + open;
      }
      start := i;
      current := candidate;
    }
    if current != [] {
      batches := batches + [current];
    }
    return Ok(batches);
  }

  lemma Associate(a: seq<seq<Value>>, b: seq<seq<Value>>, c: seq<seq<Value>>)
    ensures a + (b + c) == a + b + c
  {
  }

  function Joined(batches: seq<seq<Value>>): seq<Value> {
    if batches == [] then [] else batches[0] + Joined(batches[1..])
  }

  /** A way to cut a list, in order, into requests that fit. */
  predicate Cut(all: seq<Value>, batches: seq<seq<Value>>, size: Size) {
    Joined(batches) == all && forall i :: 0 <= i < |batches| ==> batches[i] != [] && Fits(batches[i], size)
  }

  /** A stretch of observations takes no more than the whole. */
  ghost predicate Monotone(all: seq<Value>, size: Size) {
    forall i, j, k, l :: 0 <= i <= k < l <= j <= |all| ==> size(all[k..l]) <= size(all[i..j])
  }

  lemma JoinedOne(batch: seq<Value>)
    ensures Joined(Closed(batch)) == batch
  {
  }

  lemma {:induction false} PackCuts(all: seq<Value>, start: nat, next: nat, size: Size)
    requires start <= next <= |all| && (start < next ==> Fits(all[start..next], size))
    requires Pack(all, start, next, size).Some?
    ensures Cut(all[start..], Pack(all, start, next, size).value, size)
    decreases |all| - next
  {
    if next == |all| {
      assert all[start..next] == all[start..];
      JoinedOne(all[start..]);
    } else if Fits(all[start..next + 1], size) {
      PackCuts(all, start, next + 1, size);
    } else {
      assert all[next..next + 1] == [all[next]];
      PackCuts(all, next, next + 1, size);
      var open, rest := all[start..next], Pack(all, next, next + 1, size).value;
      assert open + all[next..] == all[start..];
      assert ([open] + rest)[1..] == rest;
      assert forall i :: 0 < i < |[open] + rest| ==> ([open] + rest)[i] == rest[i - 1];
    }
  }

  /** Packing fails exactly when one observation alone does not fit. */
  lemma {:induction false} PackFailsExactly(all: seq<Value>, start: nat, next: nat, size: Size)
    requires start <= next <= |all| && Monotone(all, size)
    ensures Pack(all, start, next, size).None? <==> exists i :: next <= i < |all| && !Fits([all[i]], size)
    decreases |all| - next
  {
    if next < |all| {
      assert all[next..next + 1] == [all[next]];
      if Fits(all[start..next + 1], size) {
        assert Fits([all[next]], size);
        PackFailsExactly(all, start, next + 1, size);
      } else if Fits([all[next]], size) {
        PackFailsExactly(all, next, next + 1, size);
      }
    }
  }

  /** No batch could have taken the first observation of the next one. */
  predicate Greedy(batches: seq<seq<Value>>, size: Size) {
    forall i :: 0 < i < |batches| && batches[i] != [] ==> !Fits(batches[i - 1] + [batches[i][0]], size)
  }

  lemma {:induction false} PackIsGreedy(all: seq<Value>, start: nat, next: nat, size: Size)
    requires start <= next <= |all| && Pack(all, start, next, size).Some? && (start == next ==> next == 0)
    ensures var packed := Pack(all, start, next, size).value;
      && Greedy(packed, size)
      && (start < next ==> packed != [] && packed[0] != [] && packed[0][0] == all[start])
    decreases |all| - next
  {
    if next < |all| {
      if Fits(all[start..next + 1], size) {
        PackIsGreedy(all, start, next + 1, size);
      } else {
        PackIsGreedy(all, next, next + 1, size);
        var open, rest := all[start..next], Pack(all, next, next + 1, size).value;
        assert start < next ==> open + [rest[0][0]] == all[start..next + 1];
        GreedyMore(open, rest, size);
      }
    }
  }

  lemma GreedyMore(open: seq<Value>, rest: seq<seq<Value>>, size: Size)
    requires Greedy(rest, size) && rest != [] && rest[0] != [] && (open != [] ==> !Fits(open + [rest[0][0]], size))
    ensures Greedy(Closed(open) + rest, size)
  {
  }

  lemma FirstOfCut(all: seq<Value>, p: nat, batches: seq<seq<Value>>, size: Size) returns (e: nat)
    requires p < |all| && Cut(all[p..], batches, size)
    ensures batches != [] && p < e <= |all| && all[p..e] == batches[0] && Fits(all[p..e], size)
    ensures Cut(all[e..], batches[1..], size)
  {
    e := p + |batches[0]|;
    assert all[p..] == batches[0] + Joined(batches[1..]);
    assert all[p..e] == all[p..][..|batches[0]|];
    assert all[e..] == all[p..][|batches[0]|..];
    assert forall i :: 0 <= i < |batches[1..]| ==> batches[1..][i] == batches[i + 1];
  }

  /** An open batch goes on as long as it fits. */
  lemma {:induction false} PackGoesOn(all: seq<Value>, start: nat, next: nat, e: nat, size: Size)
    requires start <= next <= e <= |all| && start < e && Fits(all[start..e], size) && Monotone(all, size)
    ensures Pack(all, start, next, size) == Pack(all, start, e, size)
    decreases e - next
  {
    if next < e {
      assert Fits(all[start..next + 1], size);
      PackGoesOn(all, start, next + 1, e, size);
    }
  }

  /** Against any cut of what comes after `p`, the greedy packing needs at most the open batch more. */
  lemma {:induction false} PackIsAhead(all: seq<Value>, start: nat, next: nat, p: nat, batches: seq<seq<Value>>, size: Size)
    requires Monotone(all, size) && start < next <= |all| && Fits(all[start..next], size)
    requires start < p <= |all| && Fits(all[start..p], size) && Cut(all[p..], batches, size)
    requires Pack(all, start, next, size).Some?
    ensures |Pack(all, start, next, size).value| <= 1 + |batches|
    decreases |all| - next, |batches|
  {
    if next < |all| {
      assert p > next ==> Fits(all[start..next + 1], size);
      if Fits(all[start..next + 1], size) {
        PackIsAhead(all, start, next + 1, p, batches, size);
      } else {
        var e := FirstOfCut(all, p, batches, size);
        if e <= next {
          PackIsAhead(all, start, next, e, batches[1..], size);
        } else {
          assert all[next..next + 1] == [all[next]];
          assert Fits(all[next..e], size);
          PackIsAhead(all, next, next + 1, e, batches[1..], size);
        }
      }
    }
  }

  lemma FieldAllowed()
    ensures TextRule.Allowed("observations")
  {
    LowercaseAllowed("observations");
  }

  lemma LowercaseAllowed(text: string)
    requires forall i :: 0 <= i < |text| ==> 'a' <= text[i] <= 'z'
    ensures TextRule.Allowed(text)
  {
  }

  /** The size of requests whose observations are well formed is the length of their text. */
  lemma SizeIsLength(observations: seq<Value>, nfc: string -> string, marker: Value -> nat)
    requires forall i :: 0 <= i < |observations| ==> WellFormed(observations[i], nfc)
    ensures RequestSize(observations, nfc, marker) == Utf8.Length(Canonical(Request(observations), nfc))
  {
    FieldAllowed();
    var members := Request(observations).members;
    assert WellFormed(members[0].value, nfc);
    ValidateExact(Request(observations), nfc);
  }

  lemma LengthAdds()
    ensures Additive(Utf8.Length, Anything)
  {
    forall a, b ensures Utf8.Length(a + b) == Utf8.Length(a) + Utf8.Length(b) {
      Utf8.EncodeConcat(a, b);
    }
  }

  /** A request takes its frame and its observations. */
  lemma LengthOfRequest(observations: seq<Value>, nfc: string -> string)
    ensures Utf8.Length(Canonical(Request(observations), nfc)) ==
            Utf8.Length("{") + Utf8.Length("}") + Utf8.Length(Quoted(nfc("observations"))) + Utf8.Length(":")
            + Utf8.Length("[") + ItemsWeight(observations, nfc, Utf8.Length) + Utf8.Length("]")
  {
    LengthAdds();
    var members := Request(observations).members;
    assert members[1..] == [];
    ObjectWeighs(members, nfc, Utf8.Length, Anything);
    ArrayWeighs(observations, nfc, Utf8.Length, Anything);
    assert CanonicalMembers(members, nfc)[1..] == [];
    Bracketed(Quoted(nfc("observations")), ":", Canonical(Arr(observations), nfc), Utf8.Length, Anything);
  }

  lemma StretchIsSmaller(a: seq<Value>, b: seq<Value>, c: seq<Value>, nfc: string -> string, marker: Value -> nat)
    requires forall i :: 0 <= i < |a + b + c| ==> WellFormed((a + b + c)[i], nfc)
    ensures RequestSize(b, nfc, marker) <= RequestSize(a + b + c, nfc, marker)
  {
    forall i | 0 <= i < |b| ensures WellFormed(b[i], nfc) {
      assert b[i] == (a + b + c)[|a| + i];
    }
    LengthAdds();
    SizeIsLength(b, nfc, marker);
    SizeIsLength(a + b + c, nfc, marker);
    LengthOfRequest(b, nfc);
    LengthOfRequest(a + b + c, nfc);
    StretchWeighsLess(a, b, c, nfc, Utf8.Length, Anything);
  }

  lemma SizeIsMonotone(all: seq<Value>, nfc: string -> string, marker: Value -> nat)
    requires forall i :: 0 <= i < |all| ==> WellFormed(all[i], nfc)
    ensures Monotone(all, (o: seq<Value>) => RequestSize(o, nfc, marker))
  {
    forall i, j, k, l | 0 <= i <= k < l <= j <= |all|
      ensures RequestSize(all[k..l], nfc, marker) <= RequestSize(all[i..j], nfc, marker)
    {
      assert all[i..j] == all[i..k] + all[k..l] + all[l..j];
      StretchIsSmaller(all[i..k], all[k..l], all[l..j], nfc, marker);
    }
  }

  /** For well-formed observations the packing fails exactly when one alone exceeds the limit; else
      its batches are the observations in order, every one fits, and no cut into fitting requests has
      fewer. */
  lemma PackingIsOptimal(all: seq<Value>, nfc: string -> string, marker: Value -> nat)
    requires forall i :: 0 <= i < |all| ==> WellFormed(all[i], nfc)
    ensures var size := (o: seq<Value>) => RequestSize(o, nfc, marker); var packed := Pack(all, 0, 0, size);
      && (packed.None? <==> exists i :: 0 <= i < |all| && RequestSize([all[i]], nfc, marker) > CLASSIFIER_REQUEST_LIMIT)
      && (packed.Some? ==> Cut(all, packed.value, size) && forall batches :: Cut(all, batches, size) ==> |packed.value| <= |batches|)
  {
    var size := (o: seq<Value>) => RequestSize(o, nfc, marker);
    SizeIsMonotone(all, nfc, marker);
    PackFailsExactly(all, 0, 0, size);
    assert all[0..] == all;
    if Pack(all, 0, 0, size).Some? {
      PackCuts(all, 0, 0, size);
      forall batches | Cut(all, batches, size) ensures |Pack(all, 0, 0, size).value| <= |batches| {
        if all != [] {
          var e := FirstOfCut(all, 0, batches, size);
          PackGoesOn(all, 0, 0, 1, size);
          PackIsAhead(all, 0, 1, e, batches[1..], size);
        }
      }
    }
  }
}
