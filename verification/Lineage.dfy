/**
 The manifest lineage shared by linked worktrees (codebase.rs 1241-1341). A manifest names its parents
 by digest; the digest is a parameter of which only injectivity is assumed. `D` is the type of digests.
 */
module Lineage {
  import opened Wrappers

  const EVENT_CEILING := 10_000

  datatype Manifest<D> = Manifest(parents: set<D>, body: string)

  ghost predicate Injective<D(!new)>(digest: Manifest<D> -> D) {
    forall a, b :: digest(a) == digest(b) ==> a == b
  }

  // ----- heads -----

  function Digests<D>(known: set<Manifest<D>>, digest: Manifest<D> -> D): set<D> {
    set m | m in known :: digest(m)
  }

  function Referenced<D>(known: set<Manifest<D>>): set<D> {
    set m, d | m in known && d in m.parents :: d
  }

  function Heads<D>(known: set<Manifest<D>>, digest: Manifest<D> -> D): set<D> {
    Digests(known, digest) - Referenced(known)
  }

  /** A file of a manifest store: its digest, whether its path is another digest, and the manifest
      it holds when it parses. */
  datatype StoredFile<D> = StoredFile(digest: D, pathAlias: bool, manifest: Option<Manifest<D>>)

  function FileDigests<D>(files: seq<StoredFile<D>>): set<D> {
    set f | f in files && !f.pathAlias :: f.digest
  }

  function FileParents<D>(files: seq<StoredFile<D>>): set<D> {
    set f, d | f in files && !f.pathAlias && f.manifest.Some? && d in f.manifest.value.parents :: d
  }

  /** `lineage_manifests`: the worktree's files and the register's other ones. */
  method LineageManifests<D(==)>(stored: seq<StoredFile<D>>, register: seq<StoredFile<D>>) returns (manifests: seq<StoredFile<D>>)
    ensures stored <= manifests
    ensures FileDigests(manifests) == FileDigests(stored) + FileDigests(register)
    ensures forall k :: |stored| <= k < |manifests| ==>
      manifests[k] in register && !manifests[k].pathAlias && manifests[k].digest !in FileDigests(manifests[..k])
  {
    manifests := stored;
    var seen := set f | f in stored && !f.pathAlias :: f.digest;
    for i := 0 to |register|
      invariant stored <= manifests && seen == FileDigests(manifests) == FileDigests(stored) + FileDigests(register[..i])
      invariant forall k :: |stored| <= k < |manifests| ==>
        manifests[k] in register && !manifests[k].pathAlias && manifests[k].digest !in FileDigests(manifests[..k])
    {
      var file := register[i];
      assert register[..i + 1] == register[..i] + [file];
      assert FileDigests(register[..i + 1]) == FileDigests(register[..i]) + if file.pathAlias then {} else {file.digest};
      if !file.pathAlias && file.digest !in seen {
        assert FileDigests(manifests + [file]) == FileDigests(manifests) + {file.digest};
        seen := seen + {file.digest};
        assert (manifests + [file])[..|manifests|] == manifests;
        assert forall k :: 0 <= k < |manifests| ==> (manifests + [file])[..k] == manifests[..k];
        manifests := manifests + [file];
      }
    }
    assert register[..|register|] == register;
  }

  /** The loop of `manifest_heads`. */
  method ManifestHeads<D(==)>(manifests: seq<StoredFile<D>>) returns (heads: set<D>)
    ensures heads == FileDigests(manifests) - FileParents(manifests)
  {
    var referenced: set<D> := {};
    var all: set<D> := {};
    for i := 0 to |manifests|
      invariant all == FileDigests(manifests[..i]) && referenced == FileParents(manifests[..i])
    {
      var file := manifests[i];
      assert manifests[..i + 1] == manifests[..i] + [file];
      assert FileDigests(manifests[..i + 1]) == FileDigests(manifests[..i]) + if file.pathAlias then {} else {file.digest};
      assert FileParents(manifests[..i + 1]) ==
             FileParents(manifests[..i]) + if !file.pathAlias && file.manifest.Some? then file.manifest.value.parents else {};
      if !file.pathAlias {
        all := all + {file.digest};
        if file.manifest.Some? {
          referenced := referenced + file.manifest.value.parents;
        }
      }
    }
    assert manifests[..|manifests|] == manifests;
    heads := all - referenced;
  }

  // ----- worktrees -----

  type Worktree = nat

  /** What each worktree and the common register hold; `order` is every manifest ever published, in
      the order of first publication, and is read by no operation. */
  datatype State<D> = State(trees: map<Worktree, set<Manifest<D>>>, register: set<Manifest<D>>, order: seq<Manifest<D>>)

  function Tree<D>(s: State<D>, w: Worktree): set<Manifest<D>> {
    if w in s.trees then s.trees[w] else {}
  }

  /** What a worktree knows of the lineage. */
  function Known<D>(s: State<D>, w: Worktree): set<Manifest<D>> {
    Tree(s, w) + s.register
  }

  /** `Publish` runs under the lock to its end; `Torn` dies between the write to the worktree and the
      write to the register; `Checkout` is Git replacing a worktree's files. */
  datatype Action<D> = Publish(body: string) | Torn(body: string) | Checkout(files: set<Manifest<D>>)

  function Next<D>(s: State<D>, w: Worktree, body: string, digest: Manifest<D> -> D): Manifest<D> {
    Manifest(Heads(Known(s, w), digest), body)
  }

  function Noted<D>(order: seq<Manifest<D>>, m: Manifest<D>): seq<Manifest<D>> {
    if m in order then order else order + [m]
  }

  function Step<D>(s: State<D>, w: Worktree, a: Action<D>, digest: Manifest<D> -> D): State<D> {
    match a
    case Publish(body) =>
      var m := Next(s, w, body, digest);
      State(s.trees[w := Tree(s, w) + {m}], s.register + {m}, Noted(s.order, m))
    case Torn(body) =>
      var m := Next(s, w, body, digest);
      State(s.trees[w := Tree(s, w) + {m}], s.register, Noted(s.order, m))
    case Checkout(files) => s.(trees := s.trees[w := files])
  }

  /** A scan of a store reads at most the ceiling: both stores are read whole. */
  predicate Readable<D>(s: State<D>, w: Worktree) {
    |Tree(s, w)| <= EVENT_CEILING && |s.register| <= EVENT_CEILING
  }

  /** A checkout brings files this repository published; a publication reads its stores whole. */
  predicate Allowed<D>(s: State<D>, w: Worktree, a: Action<D>) {
    && (a.Checkout? ==> forall m :: m in a.files ==> m in s.order)
    && (!a.Checkout? ==> Readable(s, w))
  }

  datatype Event<D> = Event(w: Worktree, action: Action<D>)

  ghost predicate Runs<D>(s: State<D>, events: seq<Event<D>>, t: State<D>, digest: Manifest<D> -> D)
    decreases |events|
  {
    if events == [] then t == s
    else Allowed(s, events[0].w, events[0].action) && Runs(Step(s, events[0].w, events[0].action, digest), events[1..], t, digest)
  }

  function Empty<D>(): State<D> {
    State(map[], {}, [])
  }

  // ----- every run, with crashes -----

  /** A manifest's parents were all published before it. */
  ghost predicate Ordered<D>(order: seq<Manifest<D>>, digest: Manifest<D> -> D) {
    forall i, d :: 0 <= i < |order| && d in order[i].parents ==> exists j :: 0 <= j < i && digest(order[j]) == d
  }

  predicate DistinctManifests<D(==)>(order: seq<Manifest<D>>) {
    forall i, j :: 0 <= i < j < |order| ==> order[i] != order[j]
  }

  /** Everything stored was published. */
  predicate Stored<D>(trees: map<Worktree, set<Manifest<D>>>, register: set<Manifest<D>>, order: seq<Manifest<D>>) {
    && (forall m :: m in register ==> m in order)
    && (forall w :: w in trees ==> forall m :: m in trees[w] ==> m in order)
  }

  ghost predicate Inv<D>(s: State<D>, digest: Manifest<D> -> D) {
    Ordered(s.order, digest) && DistinctManifests(s.order) && Stored(s.trees, s.register, s.order)
  }

  lemma KnownIsPublished<D>(s: State<D>, w: Worktree, digest: Manifest<D> -> D)
    requires Inv(s, digest)
    ensures forall m :: m in Known(s, w) ==> m in s.order
  {
  }

  lemma NotedOrdered<D(!new)>(order: seq<Manifest<D>>, m: Manifest<D>, digest: Manifest<D> -> D)
    requires Ordered(order, digest) && DistinctManifests(order)
    requires forall d :: d in m.parents ==> exists j :: 0 <= j < |order| && digest(order[j]) == d
    ensures Ordered(Noted(order, m), digest)
    ensures DistinctManifests(Noted(order, m))
  {
    var more := Noted(order, m);
    forall i, d | 0 <= i < |more| && d in more[i].parents ensures exists j :: 0 <= j < i && digest(more[j]) == d {
      if i < |order| {
        assert more[i] == order[i];
        var j :| 0 <= j < i && digest(order[j]) == d;
        assert more[j] == order[j];
      } else {
        var j :| 0 <= j < |order| && digest(order[j]) == d;
        assert more[j] == order[j];
      }
    }
  }

  lemma HeadsPublished<D(!new)>(s: State<D>, w: Worktree, digest: Manifest<D> -> D)
    requires Inv(s, digest)
    ensures forall d :: d in Heads(Known(s, w), digest) ==> exists j :: 0 <= j < |s.order| && digest(s.order[j]) == d
  {
  }

  lemma StepKeeps<D(!new)>(s: State<D>, w: Worktree, a: Action<D>, digest: Manifest<D> -> D)
    requires Inv(s, digest) && Allowed(s, w, a)
    ensures Inv(Step(s, w, a, digest), digest)
  {
    hide Heads, Noted, Ordered, DistinctManifests;
    if !a.Checkout? {
      var m := Next(s, w, a.body, digest);
      HeadsPublished(s, w, digest);
      NotedOrdered(s.order, m, digest);
      NotedKeeps(s.order, m);
      WrittenKeeps(s, w, m);
    }
  }

  lemma NotedKeeps<D(!new)>(order: seq<Manifest<D>>, m: Manifest<D>)
    ensures m in Noted(order, m) && forall x :: x in order ==> x in Noted(order, m)
  {
  }

  lemma WrittenKeeps<D(!new)>(s: State<D>, w: Worktree, m: Manifest<D>)
    requires Stored(s.trees, s.register, s.order)
    ensures Stored(s.trees[w := Tree(s, w) + {m}], s.register, Noted(s.order, m))
    ensures Stored(s.trees[w := Tree(s, w) + {m}], s.register + {m}, Noted(s.order, m))
  {
  }

  lemma {:induction false} RunKeeps<D(!new)>(s: State<D>, events: seq<Event<D>>, t: State<D>, digest: Manifest<D> -> D)
    requires Inv(s, digest) && Runs(s, events, t, digest)
    ensures Inv(t, digest)
    decreases |events|
  {
    if events != [] {
      StepKeeps(s, events[0].w, events[0].action, digest);
      RunKeeps(Step(s, events[0].w, events[0].action, digest), events[1..], t, digest);
    }
  }

  /** Each next manifest of the path names the one before as a parent. */
  ghost predicate Path<D>(path: seq<Manifest<D>>, known: set<Manifest<D>>, digest: Manifest<D> -> D) {
    && (forall i :: 0 <= i < |path| ==> path[i] in known)
    && (forall i :: 0 < i < |path| ==> digest(path[i - 1]) in path[i].parents)
  }

  lemma PublishedAt<D>(order: seq<Manifest<D>>, m: Manifest<D>) returns (i: nat)
    requires m in order
    ensures i < |order| && order[i] == m
  {
    i :| 0 <= i < |order| && order[i] == m;
  }

  /** A parent was published before its child. */
  lemma ParentFirst<D(!new)>(order: seq<Manifest<D>>, i: nat, k: nat, digest: Manifest<D> -> D)
    requires Injective(digest) && Ordered(order, digest) && i < |order| && k < |order|
    requires DistinctManifests(order)
    requires digest(order[i]) in order[k].parents
    ensures i < k
  {
    var j :| 0 <= j < k && digest(order[j]) == digest(order[i]);
    assert order[j] == order[i];
  }

  lemma ChildOf<D(!new)>(known: set<Manifest<D>>, d: D) returns (child: Manifest<D>)
    requires d in Referenced(known)
    ensures child in known && d in child.parents
  {
    child :| child in known && d in child.parents;
  }

  lemma PathMore<D(!new)>(m: Manifest<D>, rest: seq<Manifest<D>>, known: set<Manifest<D>>, digest: Manifest<D> -> D)
    requires m in known && |rest| > 0 && Path(rest, known, digest) && digest(m) in rest[0].parents
    ensures Path([m] + rest, known, digest) && ([m] + rest)[|rest|] == rest[|rest| - 1]
  {
  }

  /** From every known manifest a path of children leads to a head. */
  lemma {:induction false} LeadsToHead<D(!new)>(s: State<D>, known: set<Manifest<D>>, i: nat, digest: Manifest<D> -> D)
    returns (path: seq<Manifest<D>>)
    requires Injective(digest) && Inv(s, digest) && (forall m :: m in known ==> m in s.order)
    requires i < |s.order| && s.order[i] in known
    ensures |path| > 0 && path[0] == s.order[i] && Path(path, known, digest)
    ensures digest(path[|path| - 1]) in Heads(known, digest)
    decreases |s.order| - i
  {
    var m := s.order[i];
    if digest(m) in Referenced(known) {
      var child := ChildOf(known, digest(m));
      var k := PublishedAt(s.order, child);
      ParentFirst(s.order, i, k, digest);
      var rest := LeadsToHead(s, known, k, digest);
      PathMore(m, rest, known, digest);
      path := [m] + rest;
    } else {
      path := [m];
    }
  }

  /** No path of parents comes back to where it started. */
  lemma {:induction false} PathsClimb<D(!new)>(s: State<D>, known: set<Manifest<D>>, path: seq<Manifest<D>>, digest: Manifest<D> -> D)
    returns (first: nat, last: nat)
    requires Injective(digest) && Inv(s, digest) && (forall m :: m in known ==> m in s.order)
    requires |path| > 0 && Path(path, known, digest)
    ensures first < |s.order| && last < |s.order| && s.order[first] == path[0] && s.order[last] == path[|path| - 1]
    ensures |path| > 1 ==> first < last
    ensures |path| == 1 ==> first == last
  {
    first := PublishedAt(s.order, path[0]);
    if |path| == 1 {
      last := first;
    } else {
      var next: nat;
      next, last := PathsClimb(s, known, path[1..], digest);
      ParentFirst(s.order, first, next, digest);
    }
  }

  /** What a worktree knows, in every run, whatever crashed and was checked out: no manifest is its own
      ancestor, and each is a head or an ancestor of one. */
  lemma KnownLineage<D(!new)>(events: seq<Event<D>>, s: State<D>, w: Worktree, digest: Manifest<D> -> D)
    requires Injective(digest) && Runs(Empty(), events, s, digest)
    ensures forall path :: |path| > 1 && Path(path, Known(s, w), digest) ==> path[0] != path[|path| - 1]
    ensures forall m :: m in Known(s, w) ==>
      exists path :: |path| > 0 && path[0] == m && Path(path, Known(s, w), digest) && digest(path[|path| - 1]) in Heads(Known(s, w), digest)
  {
    RunKeeps(Empty(), events, s, digest);
    KnownIsPublished(s, w, digest);
    forall path | |path| > 1 && Path(path, Known(s, w), digest) ensures path[0] != path[|path| - 1] {
      var first, last := PathsClimb(s, Known(s, w), path, digest);
    }
    forall m | m in Known(s, w)
      ensures exists path :: |path| > 0 && path[0] == m && Path(path, Known(s, w), digest) && digest(path[|path| - 1]) in Heads(Known(s, w), digest)
    {
      var i := PublishedAt(s.order, m);
      var path := LeadsToHead(s, Known(s, w), i, digest);
    }
  }

  /** A new manifest is not known, and no known manifest names it. */
  lemma NextIsNew<D(!new)>(s: State<D>, w: Worktree, body: string, digest: Manifest<D> -> D)
    requires Injective(digest) && Inv(s, digest)
    ensures var m := Next(s, w, body, digest); m !in Known(s, w) && digest(m) !in Referenced(Known(s, w))
  {
    var known, m := Known(s, w), Next(s, w, body, digest);
    KnownIsPublished(s, w, digest);
    if digest(m) in Referenced(known) {
      var child :| child in known && digest(m) in child.parents;
      var k := PublishedAt(s.order, child);
      var i :| 0 <= i < k && digest(s.order[i]) == digest(m);
      NotBelowKnown(s, w, body, k, i, digest);
    } else if m in known {
      var k := PublishedAt(s.order, m);
      NotBelowKnown(s, w, body, k, k, digest);
    }
  }

  /** It cannot have been published before something known: it names a head above that. */
  lemma NotBelowKnown<D(!new)>(s: State<D>, w: Worktree, body: string, k: nat, i: nat, digest: Manifest<D> -> D)
    requires Injective(digest) && Inv(s, digest) && i <= k < |s.order| && s.order[k] in Known(s, w)
    ensures s.order[i] != Next(s, w, body, digest)
  {
    var known := Known(s, w);
    KnownIsPublished(s, w, digest);
    if s.order[i] == Next(s, w, body, digest) {
      var path := LeadsToHead(s, known, k, digest);
      var first, last := PathsClimb(s, known, path, digest);
      ParentFirst(s.order, last, i, digest);
      assert false;
    }
  }

  lemma DigestsMore<D(!new)>(known: set<Manifest<D>>, m: Manifest<D>, digest: Manifest<D> -> D)
    ensures Digests(known + {m}, digest) == Digests(known, digest) + {digest(m)}
  {
  }

  lemma ReferencedMore<D(!new)>(known: set<Manifest<D>>, m: Manifest<D>)
    ensures Referenced(known + {m}) == Referenced(known) + m.parents
  {
  }

  lemma NotItsDigest<D(!new)>(known: set<Manifest<D>>, m: Manifest<D>, digest: Manifest<D> -> D)
    requires Injective(digest) && m !in known
    ensures digest(m) !in Digests(known, digest)
  {
  }

  lemma HeadsCollapse<D(!new)>(known: set<Manifest<D>>, m: Manifest<D>, digest: Manifest<D> -> D)
    requires Injective(digest) && m !in known && digest(m) !in Referenced(known) && m.parents == Heads(known, digest)
    ensures Heads(known + {m}, digest) == {digest(m)}
  {
    DigestsMore(known, m, digest);
    ReferencedMore(known, m);
    NotItsDigest(known, m, digest);
  }

  /** A publication, finished or torn, leaves its worktree one head: the new manifest, over all the
      heads it saw. */
  lemma PublishingCollapses<D(!new)>(events: seq<Event<D>>, s: State<D>, w: Worktree, a: Action<D>, digest: Manifest<D> -> D)
    requires Injective(digest) && Runs(Empty(), events, s, digest) && !a.Checkout?
    ensures var t := Step(s, w, a, digest); var m := Next(s, w, a.body, digest);
      Known(t, w) == Known(s, w) + {m} && Heads(Known(t, w), digest) == {digest(m)} && m.parents == Heads(Known(s, w), digest)
  {
    RunKeeps(Empty(), events, s, digest);
    NextIsNew(s, w, a.body, digest);
    HeadsCollapse(Known(s, w), Next(s, w, a.body, digest), digest);
    KnownAfter(s, w, a, digest);
  }

  lemma KnownAfter<D(!new)>(s: State<D>, w: Worktree, a: Action<D>, digest: Manifest<D> -> D)
    requires !a.Checkout?
    ensures Known(Step(s, w, a, digest), w) == Known(s, w) + {Next(s, w, a.body, digest)}
  {
  }

  // ----- runs without crashes -----

  /** The last manifest of a chain, as a head set. */
  function Tip<D>(order: seq<Manifest<D>>, digest: Manifest<D> -> D): set<D> {
    if order == [] then {} else {digest(order[|order| - 1])}
  }

  ghost predicate Chain<D>(order: seq<Manifest<D>>, digest: Manifest<D> -> D) {
    forall i :: 0 <= i < |order| ==> order[i].parents == Tip(order[..i], digest)
  }

  ghost predicate Straight<D>(s: State<D>, digest: Manifest<D> -> D) {
    && Inv(s, digest) && Chain(s.order, digest)
    && (forall m :: m in s.order ==> m in s.register)
    && (forall w :: Heads(Known(s, w), digest) == Tip(s.order, digest))
  }

  lemma RegisterIsKnown<D>(s: State<D>, w: Worktree, digest: Manifest<D> -> D)
    requires Inv(s, digest) && forall m :: m in s.order ==> m in s.register
    ensures Known(s, w) == s.register
  {
  }

  lemma ChainMore<D(!new)>(order: seq<Manifest<D>>, m: Manifest<D>, digest: Manifest<D> -> D)
    requires Chain(order, digest) && m.parents == Tip(order, digest)
    ensures Chain(order + [m], digest)
  {
  }

  lemma StraightHeads<D(!new)>(s: State<D>, w: Worktree, body: string, digest: Manifest<D> -> D)
    requires Injective(digest) && Straight(s, digest)
    ensures var m := Next(s, w, body, digest);
      m !in s.order && m.parents == Tip(s.order, digest) && Heads(s.register + {m}, digest) == {digest(m)}
  {
    RegisterIsKnown(s, w, digest);
    NextIsNew(s, w, body, digest);
    HeadsCollapse(s.register, Next(s, w, body, digest), digest);
  }

  lemma StraightStep<D(!new)>(s: State<D>, w: Worktree, a: Action<D>, digest: Manifest<D> -> D)
    requires Injective(digest) && Straight(s, digest) && Allowed(s, w, a) && !a.Torn?
    ensures Straight(Step(s, w, a, digest), digest)
  {
    var t := Step(s, w, a, digest);
    StepKeeps(s, w, a, digest);
    RegisterIsKnown(s, w, digest);
    if a.Publish? {
      StraightHeads(s, w, a.body, digest);
      ChainMore(s.order, Next(s, w, a.body, digest), digest);
      assert t.order == s.order + [Next(s, w, a.body, digest)];
    }
    assert Heads(t.register, digest) == Tip(t.order, digest);
    forall v: Worktree ensures Heads(Known(t, v), digest) == Tip(t.order, digest) {
      RegisterIsKnown(t, v, digest);
    }
  }

  ghost predicate NoCrash<D>(events: seq<Event<D>>) {
    forall i :: 0 <= i < |events| ==> !events[i].action.Torn?
  }

  lemma {:induction false} StraightRun<D(!new)>(s: State<D>, events: seq<Event<D>>, t: State<D>, digest: Manifest<D> -> D)
    requires Injective(digest) && Straight(s, digest) && Runs(s, events, t, digest) && NoCrash(events)
    ensures Straight(t, digest)
    decreases |events|
  {
    if events != [] {
      StraightStep(s, events[0].w, events[0].action, digest);
      StraightRun(Step(s, events[0].w, events[0].action, digest), events[1..], t, digest);
    }
  }

  /** Without a crash, publications from any worktrees form one chain, each the child of the one
      before, and every worktree whose stores a scan can read whole sees its last manifest as the one
      head. */
  lemma PublicationsFormAChain<D(!new)>(events: seq<Event<D>>, s: State<D>, digest: Manifest<D> -> D)
    requires Injective(digest) && Runs(Empty(), events, s, digest) && NoCrash(events)
    ensures Chain(s.order, digest)
    ensures forall w: Worktree :: Readable(s, w) ==> Heads(Known(s, w), digest) == Tip(s.order, digest)
  {
    StraightRun(Empty(), events, s, digest);
  }

  // ----- the worktree before the register -----

  ghost predicate NoCheckout<D>(events: seq<Event<D>>) {
    forall i :: 0 <= i < |events| ==> !events[i].action.Checkout?
  }

  ghost predicate Held<D>(s: State<D>, m: Manifest<D>) {
    exists w :: w in s.trees && m in s.trees[w]
  }

  lemma StepHolds<D(!new)>(s: State<D>, w: Worktree, a: Action<D>, digest: Manifest<D> -> D, m: Manifest<D>)
    requires !a.Checkout? && (m in s.register ==> Held(s, m)) && m in Step(s, w, a, digest).register
    ensures Held(Step(s, w, a, digest), m)
  {
    var t := Step(s, w, a, digest);
    if m in s.register {
      var v :| v in s.trees && m in s.trees[v];
      assert v in t.trees && m in t.trees[v];
    } else {
      assert w in t.trees && m in t.trees[w];
    }
  }

  lemma {:induction false} RunHolds<D(!new)>(s: State<D>, events: seq<Event<D>>, t: State<D>, digest: Manifest<D> -> D, m: Manifest<D>)
    requires Runs(s, events, t, digest) && NoCheckout(events) && (m in s.register ==> Held(s, m))
    ensures m in t.register ==> Held(t, m)
    decreases |events|
  {
    if events != [] {
      var next := Step(s, events[0].w, events[0].action, digest);
      if m in next.register {
        StepHolds(s, events[0].w, events[0].action, digest, m);
      }
      RunHolds(next, events[1..], t, digest, m);
    }
  }

  /** A manifest is in the register only when a worktree has it: whatever crashed between the two writes,
      while no files are replaced the common register names none that is nowhere to be read. */
  lemma RegisteredIsHeld<D(!new)>(events: seq<Event<D>>, s: State<D>, digest: Manifest<D> -> D, m: Manifest<D>)
    requires Runs(Empty(), events, s, digest) && NoCheckout(events) && m in s.register
    ensures exists w: Worktree :: m in Tree(s, w)
  {
    RunHolds(Empty(), events, s, digest, m);
    var w :| w in s.trees && m in s.trees[w];
    assert m in Tree(s, w);
  }
}
