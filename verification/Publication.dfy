/** `RegistryPublication` of `scripts/publish-npm-baseline.ts`: publishing a release bundle to a
    registry, where a run may stop before any registry call and be started again. */
module Publication {

  const RELEASE_ENTRY_PACKAGE := "@deepseek-ai/dsh"
  const LATEST_DIST_TAG := "latest"

  datatype Packed = Packed(name: string, integrity: string)

  datatype Bundle = Bundle(packages: seq<Packed>, version: string, distTag: string)

  /** What `ReleaseBundle.load` accepts: some package, and no name twice. */
  ghost predicate Loadable(b: Bundle) {
    && b.packages != []
    && forall i, j :: 0 <= i < j < |b.packages| ==> b.packages[i].name != b.packages[j].name
  }

  /** Integrity by package and version; version by package and dist-tag. */
  datatype Registry = Registry(stored: map<(string, string), string>, tags: map<(string, string), string>)

  datatype End =
    | Running
    | Completed
    | Interrupted
    | DifferentIntegrity(name: string)
    | NoSuchVersion(name: string)
    | MissingPackage(name: string)
    | NoSuchPackage(name: string)
    | IntegrityMismatch(name: string)
    | WrongTag(name: string, tag: string)

  /** A run at one moment: the registry, how many more calls the run lives for, and its outcome. */
  datatype Run = Run(registry: Registry, calls: nat, end: End)

  // ---------------------------------------------------------------- the protocol, as functions

  function Spend(r: Run): Run {
    if r.calls == 0 then r.(end := Interrupted) else r.(calls := r.calls - 1)
  }

  predicate Stored(g: Registry, name: string, version: string) {
    (name, version) in g.stored
  }

  /** The registry has the package, in whatever version: what listing its tags needs. */
  predicate Known(g: Registry, name: string) {
    exists k :: k in g.stored && k.0 == name
  }

  predicate Tagged(g: Registry, name: string, tag: string, version: string) {
    (name, tag) in g.tags && g.tags[(name, tag)] == version
  }

  /** `npm publish --tag`: the version is stored and the tag moves to it. */
  function NpmPublish(g: Registry, p: Packed, version: string, tag: string): Registry {
    Registry(g.stored[(p.name, version) := p.integrity], g.tags[(p.name, tag) := version])
  }

  function DistTagAdd(g: Registry, name: string, version: string, tag: string): Registry {
    g.(tags := g.tags[(name, tag) := version])
  }

  /** `remoteDistTag`: listing the tags of a package the registry lacks is an error. */
  function ListTags(name: string, r: Run): Run
    requires r.end.Running?
  {
    var read := Spend(r);
    if read.end.Running? && !Known(r.registry, name) then read.(end := NoSuchPackage(name)) else read
  }

  lemma StoredIsKnown(g: Registry, name: string, version: string)
    requires Stored(g, name, version)
    ensures Known(g, name)
  {
    assert (name, version).0 == name;
  }

  function EnsureDistTag(b: Bundle, name: string, tag: string, r: Run): Run
    requires r.end.Running?
  {
    var read := ListTags(name, r);
    if !read.end.Running? || Tagged(r.registry, name, tag, b.version) then read
    else
      var add := Spend(read);
      if add.end.Interrupted? then add
      else if !Stored(r.registry, name, b.version) then add.(end := NoSuchVersion(name))
      else add.(registry := DistTagAdd(r.registry, name, b.version, tag))
  }

  function PublishOne(b: Bundle, p: Packed, r: Run): Run
    requires r.end.Running?
  {
    var view := Spend(r);
    if view.end.Interrupted? then view
    else if !Stored(r.registry, p.name, b.version) then
      var put := Spend(view);
      if put.end.Interrupted? then put
      else EnsureDistTag(b, p.name, b.distTag, put.(registry := NpmPublish(r.registry, p, b.version, b.distTag)))
    else if r.registry.stored[(p.name, b.version)] != p.integrity then view.(end := DifferentIntegrity(p.name))
    else EnsureDistTag(b, p.name, b.distTag, view)
  }

  /** The loop over the first `n` packages. */
  function PublishFirst(b: Bundle, n: nat, r: Run): Run
    requires n <= |b.packages| && r.end.Running?
  {
    if n == 0 then r else
      var before := PublishFirst(b, n - 1, r);
      if before.end.Running? then PublishOne(b, b.packages[n - 1], before) else before
  }

  function VerifyOne(b: Bundle, p: Packed, r: Run): Run
    requires r.end.Running?
  {
    var view := Spend(r);
    if view.end.Interrupted? then view
    else if !Stored(r.registry, p.name, b.version) then view.(end := MissingPackage(p.name))
    else if r.registry.stored[(p.name, b.version)] != p.integrity then view.(end := IntegrityMismatch(p.name))
    else
      var read := ListTags(p.name, view);
      if !read.end.Running? || Tagged(r.registry, p.name, b.distTag, b.version) then read
      else read.(end := WrongTag(p.name, b.distTag))
  }

  function VerifyFirst(b: Bundle, n: nat, r: Run): Run
    requires n <= |b.packages| && r.end.Running?
  {
    if n == 0 then r else
      var before := VerifyFirst(b, n - 1, r);
      if before.end.Running? then VerifyOne(b, b.packages[n - 1], before) else before
  }

  function VerifyEntryTag(b: Bundle, r: Run): Run
    requires r.end.Running?
  {
    var read := ListTags(RELEASE_ENTRY_PACKAGE, r);
    if !read.end.Running? then read
    else if Tagged(r.registry, RELEASE_ENTRY_PACKAGE, LATEST_DIST_TAG, b.version) then read.(end := Completed)
    else read.(end := WrongTag(RELEASE_ENTRY_PACKAGE, LATEST_DIST_TAG))
  }

  /** `verifyRemote` and `verifyReleaseEntryDistTag`. */
  function VerifyAll(b: Bundle, r: Run): Run
    requires r.end.Running?
  {
    var checked := VerifyFirst(b, |b.packages|, r);
    if checked.end.Running? then VerifyEntryTag(b, checked) else checked
  }

  function PublishAll(b: Bundle, r: Run): Run
    requires r.end.Running?
  {
    var packages := PublishFirst(b, |b.packages|, r);
    if !packages.end.Running? then packages
    else
      var latest := EnsureDistTag(b, RELEASE_ENTRY_PACKAGE, LATEST_DIST_TAG, packages);
      if latest.end.Running? then VerifyAll(b, latest) else latest
  }

  /** One `publish` that stops after `calls` registry calls if it has not ended by then. */
  function Publish(b: Bundle, g: Registry, calls: nat): Run {
    PublishAll(b, Run(g, calls, Running))
  }

  /** The registry after one publisher ran `publish` again and again, stopping anywhere. */
  function History(b: Bundle, g: Registry, stops: seq<nat>): Registry {
    if stops == [] then g else Publish(b, History(b, g, stops[..|stops| - 1]), stops[|stops| - 1]).registry
  }

  // ---------------------------------------------------------------- where every history leads

  ghost predicate InPlace(b: Bundle, p: Packed, g: Registry) {
    && Stored(g, p.name, b.version)
    && g.stored[(p.name, b.version)] == p.integrity
    && Tagged(g, p.name, b.distTag, b.version)
  }

  ghost predicate FirstInPlace(b: Bundle, n: nat, g: Registry)
    requires n <= |b.packages|
  {
    forall i :: 0 <= i < n ==> InPlace(b, b.packages[i], g)
  }

  /** The whole bundle is in the registry, with the bundle's integrity and dist-tag. */
  ghost predicate AllInPlace(b: Bundle, g: Registry) {
    FirstInPlace(b, |b.packages|, g)
  }

  predicate LatestMoved(b: Bundle, g: Registry) {
    Tagged(g, "@deepseek-ai/dsh", "latest", b.version)
  }

  ghost predicate Final(b: Bundle, g: Registry) {
    AllInPlace(b, g) && Known(g, "@deepseek-ai/dsh") && LatestMoved(b, g)
  }

  /** What every single registry call keeps: nothing stored is replaced or removed, and a tag only
      ever moves to the bundle's version. */
  ghost predicate Advances(b: Bundle, g: Registry, h: Registry) {
    && (forall k :: k in g.stored ==> k in h.stored && h.stored[k] == g.stored[k])
    && (forall k :: k in g.tags ==> k in h.tags && (h.tags[k] == g.tags[k] || h.tags[k] == b.version))
  }

  ghost predicate BundleKey(b: Bundle, k: (string, string), integrity: string) {
    exists i :: 0 <= i < |b.packages| && k == (b.packages[i].name, b.version) && integrity == b.packages[i].integrity
  }

  ghost predicate BundleTag(b: Bundle, k: (string, string)) {
    || k == (RELEASE_ENTRY_PACKAGE, LATEST_DIST_TAG)
    || exists i :: 0 <= i < |b.packages| && k == (b.packages[i].name, b.distTag)
  }

  /** `h` adds to `g` only what the bundle brings. */
  ghost predicate AddsOnly(b: Bundle, g: Registry, h: Registry) {
    && (forall k :: k in h.stored && k !in g.stored ==> BundleKey(b, k, h.stored[k]))
    && (forall k :: k in h.tags && !(k in g.tags && g.tags[k] == h.tags[k]) ==>
        BundleTag(b, k) && h.tags[k] == b.version)
  }

  ghost predicate Between(b: Bundle, g: Registry, h: Registry) {
    Advances(b, g, h) && AddsOnly(b, g, h)
  }

  lemma BetweenPublish(b: Bundle, g: Registry, h: Registry, i: nat)
    requires Between(b, g, h) && i < |b.packages| && !Stored(h, b.packages[i].name, b.version)
    ensures Between(b, g, NpmPublish(h, b.packages[i], b.version, b.distTag))
  {
    var p := b.packages[i];
    assert BundleKey(b, (p.name, b.version), p.integrity);
    assert BundleTag(b, (p.name, b.distTag));
  }

  lemma BetweenTag(b: Bundle, g: Registry, h: Registry, name: string, tag: string)
    requires Between(b, g, h) && BundleTag(b, (name, tag))
    ensures Between(b, g, DistTagAdd(h, name, b.version, tag))
  {
  }

  // ---------------------------------------------------------------- every call, every run

  lemma EnsureKeeps(b: Bundle, g: Registry, name: string, tag: string, r: Run)
    requires r.end.Running? && Between(b, g, r.registry) && BundleTag(b, (name, tag))
    ensures var s := EnsureDistTag(b, name, tag, r);
            && Between(b, g, s.registry) && Advances(b, r.registry, s.registry)
            && s.registry.stored == r.registry.stored
            && (s.registry.tags == r.registry.tags || s.registry.tags == r.registry.tags[(name, tag) := b.version])
            && (s.end.Running? ==> Tagged(s.registry, name, tag, b.version))
            && !s.end.Completed?
  {
    EnsureAdds(b, name, tag, r);
    BetweenTag(b, g, r.registry, name, tag);
    AdvancesRefl(b, r.registry);
    hide EnsureDistTag, AddsOnly, BundleTag;
    TagAdvances(b, r.registry, name, tag);
  }

  /** What one call of `ensureDistTag` does to the registry. */
  lemma EnsureAdds(b: Bundle, name: string, tag: string, r: Run)
    requires r.end.Running?
    ensures var s := EnsureDistTag(b, name, tag, r);
            && (s.registry == r.registry || s.registry == DistTagAdd(r.registry, name, b.version, tag))
            && (s.end.Running? ==> Tagged(s.registry, name, tag, b.version))
            && !s.end.Completed?
  {
  }

  lemma TagAdvances(b: Bundle, g: Registry, name: string, tag: string)
    ensures Advances(b, g, DistTagAdd(g, name, b.version, tag))
  {
  }

  lemma OneKeeps(b: Bundle, g: Registry, i: nat, r: Run)
    requires i < |b.packages| && r.end.Running? && Between(b, g, r.registry)
    ensures var s := PublishOne(b, b.packages[i], r);
            && Between(b, g, s.registry) && Advances(b, r.registry, s.registry)
            && (s.end.Running? ==> InPlace(b, b.packages[i], s.registry))
            && (forall k :: k in s.registry.tags && k != (b.packages[i].name, b.distTag) ==>
                k in r.registry.tags && r.registry.tags[k] == s.registry.tags[k])
            && (s.registry == r.registry || InPlace(b, b.packages[i], s.registry))
            && !s.end.Completed?
  {
    var p := b.packages[i];
    assert BundleTag(b, (p.name, b.distTag));
    hide EnsureDistTag, BundleTag, AddsOnly, Advances, InPlace;
    AdvancesRefl(b, r.registry);
    var view := Spend(r);
    if view.end.Running? {
      if !Stored(r.registry, p.name, b.version) {
        BetweenPublish(b, g, r.registry, i);
        var put := Spend(view);
        if put.end.Running? {
          var after := put.(registry := NpmPublish(r.registry, p, b.version, b.distTag));
          PutAdvances(b, i, r.registry);
          EnsureKeeps(b, g, p.name, b.distTag, after);
          TaggedInPlace(b, i, after);
          AdvancesTrans(b, r.registry, after.registry, EnsureDistTag(b, p.name, b.distTag, after).registry);
        }
      } else if r.registry.stored[(p.name, b.version)] == p.integrity {
        EnsureKeeps(b, g, p.name, b.distTag, view);
        TaggedInPlace(b, i, view);
      }
    }
  }

  lemma PutAdvances(b: Bundle, i: nat, g: Registry)
    requires i < |b.packages| && !Stored(g, b.packages[i].name, b.version)
    ensures var h := NpmPublish(g, b.packages[i], b.version, b.distTag);
            Advances(b, g, h) && InPlace(b, b.packages[i], h)
  {
  }

  /** Tagging a stored package leaves the registry alone or puts the package in place. */
  lemma TaggedInPlace(b: Bundle, i: nat, r: Run)
    requires i < |b.packages| && r.end.Running?
    requires Stored(r.registry, b.packages[i].name, b.version)
    requires r.registry.stored[(b.packages[i].name, b.version)] == b.packages[i].integrity
    ensures var p := b.packages[i]; var s := EnsureDistTag(b, p.name, b.distTag, r);
            && (s.registry == r.registry || InPlace(b, p, s.registry))
            && (s.end.Running? || InPlace(b, p, r.registry) ==> InPlace(b, p, s.registry))
  {
  }

  lemma InPlaceStays(b: Bundle, n: nat, g: Registry, h: Registry)
    requires n <= |b.packages| && FirstInPlace(b, n, g) && Advances(b, g, h)
    ensures FirstInPlace(b, n, h)
  {
  }

  lemma AdvancesRefl(b: Bundle, g: Registry)
    ensures Advances(b, g, g)
  {
  }

  lemma AdvancesTrans(b: Bundle, g: Registry, h: Registry, k: Registry)
    requires Advances(b, g, h) && Advances(b, h, k)
    ensures Advances(b, g, k)
  {
  }

  /** `latest` may move only with the whole bundle in place. */
  ghost predicate Safe(b: Bundle, g: Registry) {
    LatestMoved(b, g) ==> AllInPlace(b, g)
  }

  /** The bundle's own dist-tag is not `latest`, or the entry package comes last if it comes at all. */
  predicate LatestMovesLast(b: Bundle) {
    b.distTag == "latest" ==> forall i :: 0 <= i < |b.packages| - 1 ==> b.packages[i].name != "@deepseek-ai/dsh"
  }

  lemma OneSafe(b: Bundle, g: Registry, i: nat, r: Run)
    requires i < |b.packages| && r.end.Running? && Between(b, g, r.registry)
    requires LatestMovesLast(b) && Safe(b, r.registry) && FirstInPlace(b, i, r.registry)
    ensures Safe(b, PublishOne(b, b.packages[i], r).registry)
    ensures FirstInPlace(b, i, PublishOne(b, b.packages[i], r).registry)
    ensures PublishOne(b, b.packages[i], r).end.Running? ==>
        FirstInPlace(b, i + 1, PublishOne(b, b.packages[i], r).registry)
  {
    var s := PublishOne(b, b.packages[i], r);
    OneKeeps(b, g, i, r);
    InPlaceStays(b, i, r.registry, s.registry);
    if LatestMoved(b, s.registry) {
      if LatestMoved(b, r.registry) {
        InPlaceStays(b, |b.packages|, r.registry, s.registry);
      } else {
        assert (RELEASE_ENTRY_PACKAGE, LATEST_DIST_TAG) == (b.packages[i].name, b.distTag);
        assert i == |b.packages| - 1;
      }
    }
  }

  lemma {:induction false} FirstSafe(b: Bundle, g: Registry, n: nat, r: Run)
    requires n <= |b.packages| && r.end.Running? && Between(b, g, r.registry)
    ensures var s := PublishFirst(b, n, r);
            && Between(b, g, s.registry) && Advances(b, r.registry, s.registry)
            && (s.end.Running? ==> FirstInPlace(b, n, s.registry))
            && (LatestMovesLast(b) && Safe(b, r.registry) ==> Safe(b, s.registry))
            && !s.end.Completed?
  {
    hide Between, Advances, Safe, LatestMovesLast, PublishOne, InPlace;
    if n == 0 {
      AdvancesRefl(b, r.registry);
    } else {
      FirstSafe(b, g, n - 1, r);
      var before := PublishFirst(b, n - 1, r);
      if before.end.Running? {
        OneKeeps(b, g, n - 1, before);
        var s := PublishOne(b, b.packages[n - 1], before);
        assert PublishFirst(b, n, r) == s;
        AdvancesTrans(b, r.registry, before.registry, s.registry);
        InPlaceStays(b, n - 1, before.registry, s.registry);
        if LatestMovesLast(b) && Safe(b, r.registry) {
          OneSafe(b, g, n - 1, before);
        }
      }
    }
  }

  lemma {:induction false} VerifyReadsOnly(b: Bundle, n: nat, r: Run)
    requires n <= |b.packages| && r.end.Running?
    ensures VerifyFirst(b, n, r).registry == r.registry
    ensures VerifyFirst(b, n, r).end.Running? ==> FirstInPlace(b, n, r.registry)
    ensures !VerifyFirst(b, n, r).end.Completed?
  {
    if n > 0 {
      VerifyReadsOnly(b, n - 1, r);
    }
  }

  lemma VerifyAllReadsOnly(b: Bundle, r: Run)
    requires r.end.Running?
    ensures VerifyAll(b, r).registry == r.registry
    ensures VerifyAll(b, r).end.Completed? ==> Final(b, r.registry)
    ensures !VerifyAll(b, r).end.Running?
  {
    VerifyReadsOnly(b, |b.packages|, r);
  }

  /** One run, wherever it stops. */
  lemma PublishKeeps(b: Bundle, g: Registry, h: Registry, calls: nat)
    requires Between(b, g, h)
    ensures var s := Publish(b, h, calls);
            && Between(b, g, s.registry) && Advances(b, h, s.registry)
            && (LatestMovesLast(b) && Safe(b, h) ==> Safe(b, s.registry))
            && (s.end.Completed? ==> Final(b, s.registry))
            && !s.end.Running?
  {
    var r := Run(h, calls, Running);
    var n := |b.packages|;
    FirstSafe(b, g, n, r);
    var packages := PublishFirst(b, n, r);
    if packages.end.Running? {
      EnsureKeeps(b, g, RELEASE_ENTRY_PACKAGE, LATEST_DIST_TAG, packages);
      var latest := EnsureDistTag(b, RELEASE_ENTRY_PACKAGE, LATEST_DIST_TAG, packages);
      AdvancesTrans(b, h, packages.registry, latest.registry);
      InPlaceStays(b, n, packages.registry, latest.registry);
      if latest.end.Running? {
        VerifyAllReadsOnly(b, latest);
      }
    }
  }

  /** Over every sequence of runs that stop anywhere: no stored integrity is ever replaced, nothing
      foreign is added, and `latest` names the version only with the whole bundle in place. */
  lemma {:induction false} HistorySafe(b: Bundle, g: Registry, stops: seq<nat>)
    requires !LatestMoved(b, g)
    ensures Between(b, g, History(b, g, stops))
    ensures LatestMovesLast(b) ==> Safe(b, History(b, g, stops))
  {
    if stops != [] {
      var n := |stops| - 1;
      HistorySafe(b, g, stops[..n]);
      PublishKeeps(b, g, History(b, g, stops[..n]), stops[n]);
    }
  }

  /** Completed histories from one registry all end in one registry. */
  lemma FinalUnique(b: Bundle, g: Registry, h: Registry, k: Registry)
    requires Loadable(b) && Between(b, g, h) && Between(b, g, k) && Final(b, h) && Final(b, k)
    ensures h == k
  {
    SameStored(b, g, h, k);
    SameStored(b, g, k, h);
    SameTags(b, g, h, k);
    SameTags(b, g, k, h);
    assert h.stored == k.stored && h.tags == k.tags;
  }

  lemma SameStored(b: Bundle, g: Registry, h: Registry, k: Registry)
    requires Loadable(b) && Between(b, g, h) && Between(b, g, k) && Final(b, k)
    ensures forall x :: x in h.stored ==> x in k.stored && h.stored[x] == k.stored[x]
  {
  }

  /** A tag of a final registry is the one there was, or a tag of the bundle at its version. */
  lemma FinalTag(b: Bundle, g: Registry, h: Registry, k: Registry, x: (string, string))
    requires Between(b, g, h) && Between(b, g, k) && Final(b, k) && x in h.tags
    ensures (x in k.tags && h.tags[x] == k.tags[x]) || BundleTag(b, x)
    ensures BundleTag(b, x) ==> x in k.tags && k.tags[x] == b.version
  {
    if BundleTag(b, x) && x != (RELEASE_ENTRY_PACKAGE, LATEST_DIST_TAG) {
      var i :| 0 <= i < |b.packages| && x == (b.packages[i].name, b.distTag);
      assert InPlace(b, b.packages[i], k);
    }
  }

  lemma SameTags(b: Bundle, g: Registry, h: Registry, k: Registry)
    requires Between(b, g, h) && Between(b, g, k) && Final(b, h) && Final(b, k)
    ensures forall x :: x in h.tags ==> x in k.tags && h.tags[x] == k.tags[x]
  {
    hide Between, Final, BundleTag;
    forall x | x in h.tags
      ensures x in k.tags && h.tags[x] == k.tags[x]
    {
      FinalTag(b, g, h, k, x);
      FinalTag(b, g, h, h, x);
    }
  }

  /** Whatever happened before, all runs that complete reach the same registry. */
  lemma CompletedHistoriesAgree(b: Bundle, g: Registry, stops: seq<nat>, stops': seq<nat>, calls: nat, calls': nat)
    requires Loadable(b) && !LatestMoved(b, g)
    requires Publish(b, History(b, g, stops), calls).end.Completed?
    requires Publish(b, History(b, g, stops'), calls').end.Completed?
    ensures Publish(b, History(b, g, stops), calls).registry == Publish(b, History(b, g, stops'), calls').registry
  {
    HistorySafe(b, g, stops);
    HistorySafe(b, g, stops');
    PublishKeeps(b, g, History(b, g, stops), calls);
    PublishKeeps(b, g, History(b, g, stops'), calls');
    FinalUnique(b, g, Publish(b, History(b, g, stops), calls).registry,
        Publish(b, History(b, g, stops'), calls').registry);
  }

  // ---------------------------------------------------------------- exactly when `latest` is safe

  const NOTHING := Registry(map[], map[])

  ghost predicate StoresOnlyFirst(b: Bundle, n: nat, g: Registry)
    requires n <= |b.packages|
  {
    forall k :: k in g.stored ==> exists j :: 0 <= j < n && k == (b.packages[j].name, b.version)
  }

  /** On an empty registry each package costs three calls. */
  lemma {:induction false} FromNothing(b: Bundle, n: nat, calls: nat)
    requires Loadable(b) && n <= |b.packages| && calls >= 3 * n
    ensures var s := PublishFirst(b, n, Run(NOTHING, calls, Running));
            s.end.Running? && s.calls == calls - 3 * n && StoresOnlyFirst(b, n, s.registry)
  {
    hide PublishOne, NpmPublish, StoresOnlyFirst, Loadable, Stored;
    if n == 0 {
      NothingStored(b);
    } else {
      FromNothing(b, n - 1, calls);
      var before := PublishFirst(b, n - 1, Run(NOTHING, calls, Running));
      NotYetStored(b, n - 1, before.registry);
      FreshPublish(b, b.packages[n - 1], before);
      StoresOneMore(b, n, before.registry);
    }
  }

  lemma NothingStored(b: Bundle)
    ensures StoresOnlyFirst(b, 0, NOTHING)
  {
  }

  lemma NotYetStored(b: Bundle, i: nat, g: Registry)
    requires Loadable(b) && i < |b.packages| && StoresOnlyFirst(b, i, g)
    ensures !Stored(g, b.packages[i].name, b.version)
  {
  }

  /** A package that is not stored is published and tagged in three calls. */
  lemma FreshPublish(b: Bundle, p: Packed, before: Run)
    requires before.end.Running? && before.calls >= 3 && !Stored(before.registry, p.name, b.version)
    ensures PublishOne(b, p, before) ==
      Run(NpmPublish(before.registry, p, b.version, b.distTag), before.calls - 3, Running)
  {
    var after := NpmPublish(before.registry, p, b.version, b.distTag);
    assert Stored(after, p.name, b.version) && Tagged(after, p.name, b.distTag, b.version);
    StoredIsKnown(after, p.name, b.version);
  }

  lemma StoresOneMore(b: Bundle, n: nat, g: Registry)
    requires 0 < n <= |b.packages| && StoresOnlyFirst(b, n - 1, g)
    ensures StoresOnlyFirst(b, n, NpmPublish(g, b.packages[n - 1], b.version, b.distTag))
  {
    var p := b.packages[n - 1];
    var after := NpmPublish(g, p, b.version, b.distTag);
    forall k | k in after.stored
      ensures exists j :: 0 <= j < n && k == (b.packages[j].name, b.version)
    {
      if k == (p.name, b.version) {
        assert k == (b.packages[n - 1].name, b.version);
      } else {
        var j :| 0 <= j < n - 1 && k == (b.packages[j].name, b.version);
      }
    }
  }

  lemma {:induction false} EndedStays(b: Bundle, m: nat, n: nat, r: Run)
    requires m <= n <= |b.packages| && r.end.Running? && !PublishFirst(b, m, r).end.Running?
    ensures PublishFirst(b, n, r) == PublishFirst(b, m, r)
    decreases n
  {
    if m < n {
      EndedStays(b, m, n - 1, r);
    }
  }

  /** A bundle whose own dist-tag is `latest` and whose entry package is not last: stopping right
      after publishing the entry leaves `latest` on a version whose bundle is incomplete. */
  lemma LatestMovesEarly(b: Bundle) returns (stops: seq<nat>)
    requires Loadable(b) && !LatestMovesLast(b)
    ensures !LatestMoved(b, NOTHING) && !Safe(b, History(b, NOTHING, stops))
  {
    var i :| 0 <= i < |b.packages| - 1 && b.packages[i].name == RELEASE_ENTRY_PACKAGE;
    stops := [3 * i + 2];
    hide History, Safe, Loadable;
    var g := StopsEarly(b, i);
    MovedTooEarly(b, i, g);
  }

  /** On an empty registry, a run stopped between publishing a package and tagging it. */
  lemma StopsEarly(b: Bundle, i: nat) returns (g: Registry)
    requires Loadable(b) && i + 1 < |b.packages|
    ensures History(b, NOTHING, [3 * i + 2]) == NpmPublish(g, b.packages[i], b.version, b.distTag)
    ensures !Stored(NpmPublish(g, b.packages[i], b.version, b.distTag), b.packages[i + 1].name, b.version)
  {
    hide PublishOne, StoresOnlyFirst, History, Publish, Loadable, Stored;
    var r := Run(NOTHING, 3 * i + 2, Running);
    FromNothing(b, i, 3 * i + 2);
    var before := PublishFirst(b, i, r);
    StopsAfterPublish(b, i, before);
    g := before.registry;
    assert PublishFirst(b, i + 1, r) == PublishOne(b, b.packages[i], before);
    EndedStays(b, i + 1, |b.packages|, r);
    StoppedHistory(b, 3 * i + 2);
  }

  lemma MovedTooEarly(b: Bundle, i: nat, g: Registry)
    requires i + 1 < |b.packages| && b.packages[i].name == RELEASE_ENTRY_PACKAGE && b.distTag == LATEST_DIST_TAG
    requires var h := NpmPublish(g, b.packages[i], b.version, b.distTag); !Stored(h, b.packages[i + 1].name, b.version)
    ensures !Safe(b, NpmPublish(g, b.packages[i], b.version, b.distTag))
  {
    var h := NpmPublish(g, b.packages[i], b.version, b.distTag);
    assert !InPlace(b, b.packages[i + 1], h);
  }

  /** The history of one run that stops among the packages. */
  lemma StoppedHistory(b: Bundle, calls: nat)
    requires !PublishFirst(b, |b.packages|, Run(NOTHING, calls, Running)).end.Running?
    ensures History(b, NOTHING, [calls]) == PublishFirst(b, |b.packages|, Run(NOTHING, calls, Running)).registry
  {
    hide PublishFirst, EnsureDistTag, VerifyAll;
    assert [calls][..0] == [];
    assert History(b, NOTHING, []) == NOTHING;
  }

  /** With two calls left the package is published, under the bundle's tag, and the run stops. */
  lemma StopsAfterPublish(b: Bundle, i: nat, before: Run)
    requires Loadable(b) && i + 1 < |b.packages| && StoresOnlyFirst(b, i, before.registry)
    requires before.end.Running? && before.calls == 2
    ensures var s := PublishOne(b, b.packages[i], before);
            && s.end.Interrupted? && s.registry == NpmPublish(before.registry, b.packages[i], b.version, b.distTag)
            && !Stored(s.registry, b.packages[i + 1].name, b.version)
  {
    assert !Stored(before.registry, b.packages[i].name, b.version);
    assert !Stored(before.registry, b.packages[i + 1].name, b.version);
    assert b.packages[i].name != b.packages[i + 1].name;
  }

  // ---------------------------------------------------------------- exactly when a run completes

  ghost predicate Free(b: Bundle, i: nat, g: Registry)
    requires i < |b.packages|
  {
    var p := b.packages[i];
    Stored(g, p.name, b.version) ==> g.stored[(p.name, b.version)] == p.integrity
  }

  ghost predicate HasEntry(b: Bundle) {
    exists i :: 0 <= i < |b.packages| && b.packages[i].name == "@deepseek-ai/dsh"
  }

  /** No package is stored with another integrity, and the entry package's version will exist. */
  ghost predicate Publishable(b: Bundle, g: Registry) {
    && (forall i :: 0 <= i < |b.packages| ==> Free(b, i, g))
    && (HasEntry(b) || Stored(g, "@deepseek-ai/dsh", b.version))
  }

  lemma FreeKept(b: Bundle, g: Registry, h: Registry, i: nat)
    requires Loadable(b) && Between(b, g, h) && i < |b.packages|
    ensures Free(b, i, g) <==> Free(b, i, h)
  {
  }

  lemma PublishableKept(b: Bundle, g: Registry, h: Registry)
    requires Loadable(b) && Between(b, g, h)
    ensures Publishable(b, g) <==> Publishable(b, h)
  {
    forall i | 0 <= i < |b.packages|
      ensures Free(b, i, g) <==> Free(b, i, h)
    {
      FreeKept(b, g, h, i);
    }
    var k := (RELEASE_ENTRY_PACKAGE, b.version);
    if k in h.stored && k !in g.stored {
      assert BundleKey(b, k, h.stored[k]);
      var j :| 0 <= j < |b.packages| && k == (b.packages[j].name, b.version) && h.stored[k] == b.packages[j].integrity;
      assert HasEntry(b);
    }
  }

  lemma {:induction false} FirstCompletes(b: Bundle, g: Registry, n: nat, r: Run)
    requires Loadable(b) && n <= |b.packages| && r.end.Running? && Between(b, g, r.registry) && r.calls >= 4 * n
    requires forall i :: 0 <= i < n ==> Free(b, i, g)
    ensures var s := PublishFirst(b, n, r); s.end.Running? && s.calls >= r.calls - 4 * n
  {
    hide Between, Free, PublishOne, FirstInPlace, Safe, LatestMovesLast, Advances;
    if n > 0 {
      FirstCompletes(b, g, n - 1, r);
      var before := PublishFirst(b, n - 1, r);
      FirstSafe(b, g, n - 1, r);
      assert Free(b, n - 1, g);
      FreeKept(b, g, before.registry, n - 1);
      OneCompletes(b, n - 1, before);
    }
  }

  lemma OneCompletes(b: Bundle, i: nat, r: Run)
    requires i < |b.packages| && r.end.Running? && r.calls >= 4 && Free(b, i, r.registry)
    ensures var s := PublishOne(b, b.packages[i], r); s.end.Running? && s.calls >= r.calls - 4
  {
  }

  lemma {:induction false} VerifyCompletes(b: Bundle, n: nat, r: Run)
    requires n <= |b.packages| && r.end.Running? && r.calls >= 2 * n && FirstInPlace(b, n, r.registry)
    ensures var s := VerifyFirst(b, n, r); s.end.Running? && s.calls == r.calls - 2 * n
  {
    if n > 0 {
      VerifyCompletes(b, n - 1, r);
      VerifyReadsOnly(b, n - 1, r);
      assert InPlace(b, b.packages[n - 1], r.registry);
    }
  }

  /** `verify` accepts a registry exactly when it is final. */
  lemma VerifyAcceptsIff(b: Bundle, g: Registry, calls: nat)
    requires calls >= 2 * |b.packages| + 1
    ensures VerifyAll(b, Run(g, calls, Running)).end.Completed? <==> Final(b, g)
  {
    var r := Run(g, calls, Running);
    VerifyAllReadsOnly(b, r);
    if Final(b, g) {
      VerifyCompletes(b, |b.packages|, r);
      VerifyReadsOnly(b, |b.packages|, r);
    }
  }

  ghost predicate EntryStored(b: Bundle, g: Registry) {
    Stored(g, RELEASE_ENTRY_PACKAGE, b.version)
  }

  lemma EntryInPlace(b: Bundle, g: Registry)
    requires AllInPlace(b, g) && HasEntry(b)
    ensures EntryStored(b, g)
  {
  }

  /** `latest` names the version only if the entry package's version is stored. */
  ghost predicate MovedStored(b: Bundle, g: Registry) {
    LatestMoved(b, g) ==> EntryStored(b, g)
  }

  lemma {:induction false} FirstMoved(b: Bundle, g: Registry, n: nat, r: Run)
    requires n <= |b.packages| && r.end.Running? && Between(b, g, r.registry) && MovedStored(b, r.registry)
    ensures MovedStored(b, PublishFirst(b, n, r).registry)
  {
    if n > 0 {
      FirstMoved(b, g, n - 1, r);
      var before := PublishFirst(b, n - 1, r);
      if before.end.Running? {
        FirstSafe(b, g, n - 1, r);
        OneMoved(b, g, n - 1, before);
      }
    }
  }

  lemma OneMoved(b: Bundle, g: Registry, i: nat, r: Run)
    requires i < |b.packages| && r.end.Running? && Between(b, g, r.registry) && MovedStored(b, r.registry)
    ensures MovedStored(b, PublishOne(b, b.packages[i], r).registry)
  {
    OneKeeps(b, g, i, r);
    var s := PublishOne(b, b.packages[i], r);
    if LatestMoved(b, s.registry) && !LatestMoved(b, r.registry) {
      assert (RELEASE_ENTRY_PACKAGE, LATEST_DIST_TAG) == (b.packages[i].name, b.distTag);
      assert InPlace(b, b.packages[i], s.registry);
    }
  }

  lemma EnsureMoved(b: Bundle, r: Run)
    requires r.end.Running? && MovedStored(b, r.registry)
    ensures MovedStored(b, EnsureDistTag(b, RELEASE_ENTRY_PACKAGE, LATEST_DIST_TAG, r).registry)
  {
  }

  lemma {:induction false} HistoryMoved(b: Bundle, g: Registry, stops: seq<nat>)
    requires !LatestMoved(b, g)
    ensures MovedStored(b, History(b, g, stops))
  {
    hide PublishFirst, EnsureDistTag, VerifyAll, Between, Advances, Safe, LatestMovesLast, FirstInPlace;
    if stops != [] {
      var n := |stops| - 1;
      HistoryMoved(b, g, stops[..n]);
      HistorySafe(b, g, stops[..n]);
      var h := History(b, g, stops[..n]);
      var r := Run(h, stops[n], Running);
      FirstMoved(b, g, |b.packages|, r);
      FirstSafe(b, g, |b.packages|, r);
      var packages := PublishFirst(b, |b.packages|, r);
      if packages.end.Running? {
        EnsureMoved(b, packages);
        var latest := EnsureDistTag(b, RELEASE_ENTRY_PACKAGE, LATEST_DIST_TAG, packages);
        if latest.end.Running? {
          VerifyAllReadsOnly(b, latest);
        }
      }
    }
  }

  /** After any history, a run that is let live long enough completes exactly when the start allows it. */
  lemma CompletesIff(b: Bundle, g: Registry, stops: seq<nat>, calls: nat)
    requires Loadable(b) && !LatestMoved(b, g) && calls >= 6 * |b.packages| + 3
    ensures Publish(b, History(b, g, stops), calls).end.Completed? <==> Publishable(b, g)
  {
    var h := History(b, g, stops);
    HistorySafe(b, g, stops);
    PublishableKept(b, g, h);
    if Publishable(b, g) {
      Completes(b, g, h, calls);
    } else {
      HistoryMoved(b, g, stops);
      Fails(b, g, h, calls);
    }
  }

  lemma EnsureCompletes(b: Bundle, name: string, tag: string, r: Run)
    requires r.end.Running? && r.calls >= 2 && Stored(r.registry, name, b.version)
    ensures var s := EnsureDistTag(b, name, tag, r); s.end.Running? && s.calls >= r.calls - 2
  {
    StoredIsKnown(r.registry, name, b.version);
  }

  lemma EntryReady(b: Bundle, g: Registry, h: Registry)
    requires Publishable(b, g) && FirstInPlace(b, |b.packages|, h) && Between(b, g, h)
    ensures Stored(h, RELEASE_ENTRY_PACKAGE, b.version)
  {
    if HasEntry(b) {
      EntryInPlace(b, h);
    }
  }

  lemma Completes(b: Bundle, g: Registry, h: Registry, calls: nat)
    requires Loadable(b) && Between(b, g, h) && Publishable(b, g) && Publishable(b, h) && calls >= 6 * |b.packages| + 3
    ensures Publish(b, h, calls).end.Completed?
  {
    hide PublishOne, PublishFirst, EnsureDistTag, VerifyAll, Between, Advances;
    hide InPlace, Free, Loadable, HasEntry, Safe, FirstInPlace;
    var r := Run(h, calls, Running);
    var n := |b.packages|;
    FirstCompletes(b, g, n, r);
    FirstSafe(b, g, n, r);
    var packages := PublishFirst(b, n, r);
    EntryReady(b, g, packages.registry);
    BundleTagEntry(b);
    EnsureKeeps(b, g, RELEASE_ENTRY_PACKAGE, LATEST_DIST_TAG, packages);
    EnsureCompletes(b, RELEASE_ENTRY_PACKAGE, LATEST_DIST_TAG, packages);
    var latest := EnsureDistTag(b, RELEASE_ENTRY_PACKAGE, LATEST_DIST_TAG, packages);
    InPlaceStays(b, n, packages.registry, latest.registry);
    StoredIsKnown(latest.registry, RELEASE_ENTRY_PACKAGE, b.version);
    VerifyAcceptsIff(b, latest.registry, latest.calls);
  }

  lemma BundleTagEntry(b: Bundle)
    ensures BundleTag(b, (RELEASE_ENTRY_PACKAGE, LATEST_DIST_TAG))
  {
  }

  lemma {:induction false} ConflictStops(b: Bundle, g: Registry, i: nat, n: nat, r: Run)
    requires Loadable(b) && i < n <= |b.packages| && r.end.Running? && Between(b, g, r.registry) && !Free(b, i, g)
    ensures !PublishFirst(b, n, r).end.Running?
    decreases n
  {
    hide PublishOne, Free, Between, Advances, Loadable, Safe, LatestMovesLast, FirstInPlace;
    if n > i + 1 {
      ConflictStops(b, g, i, n - 1, r);
    } else {
      var before := PublishFirst(b, i, r);
      FirstSafe(b, g, i, r);
      FreeKept(b, g, before.registry, i);
      if before.end.Running? {
        OneStops(b, i, before);
      }
    }
  }

  lemma OneStops(b: Bundle, i: nat, r: Run)
    requires i < |b.packages| && r.end.Running? && !Free(b, i, r.registry)
    ensures !PublishOne(b, b.packages[i], r).end.Running?
  {
  }

  lemma Fails(b: Bundle, g: Registry, h: Registry, calls: nat)
    requires Loadable(b) && Between(b, g, h) && !Publishable(b, g) && MovedStored(b, h)
    ensures !Publish(b, h, calls).end.Completed?
  {
    hide PublishFirst, EnsureDistTag, Between, Advances, Safe;
    hide LatestMovesLast, FirstInPlace, Loadable, Free, MovedStored;
    var r := Run(h, calls, Running);
    var n := |b.packages|;
    FirstSafe(b, g, n, r);
    FirstMoved(b, g, n, r);
    if i :| 0 <= i < n && !Free(b, i, g) {
      ConflictStops(b, g, i, n, r);
    } else {
      var packages := PublishFirst(b, n, r);
      PublishableKept(b, g, packages.registry);
      forall i | 0 <= i < n
        ensures Free(b, i, packages.registry)
      {
        FreeKept(b, g, packages.registry, i);
      }
      assert !EntryStored(b, packages.registry);
      if packages.end.Running? {
        EnsureFails(b, packages);
      }
    }
  }

  lemma EnsureFails(b: Bundle, r: Run)
    requires r.end.Running? && MovedStored(b, r.registry) && !EntryStored(b, r.registry)
    ensures var s := EnsureDistTag(b, RELEASE_ENTRY_PACKAGE, LATEST_DIST_TAG, r); !s.end.Running? && !s.end.Completed?
  {
  }

  /** Where a package is in place, publishing it is two reads. */
  lemma InPlaceIsRead(b: Bundle, p: Packed, r: Run)
    requires r.end.Running? && r.calls >= 2 && InPlace(b, p, r.registry)
    ensures PublishOne(b, p, r) == r.(calls := r.calls - 2) == VerifyOne(b, p, r)
  {
    StoredIsKnown(r.registry, p.name, b.version);
  }

  lemma {:induction false} FirstAreRead(b: Bundle, n: nat, r: Run)
    requires n <= |b.packages| && r.end.Running? && r.calls >= 2 * n && AllInPlace(b, r.registry)
    ensures PublishFirst(b, n, r) == r.(calls := r.calls - 2 * n) == VerifyFirst(b, n, r)
  {
    hide InPlace, PublishOne, VerifyOne;
    if n > 0 {
      FirstAreRead(b, n - 1, r);
      InPlaceIsRead(b, b.packages[n - 1], r.(calls := r.calls - 2 * (n - 1)));
    }
  }

  /** Publishing once more what is published makes two reads for each package and one for `latest`, and
      the same again to verify; it writes nothing. */
  lemma RerunReadsOnly(b: Bundle, g: Registry, calls: nat)
    requires Final(b, g) && calls >= 4 * |b.packages| + 2
    ensures Publish(b, g, calls) == Run(g, calls - 4 * |b.packages| - 2, Completed)
  {
    hide PublishFirst, VerifyFirst, AllInPlace;
    var n, r := |b.packages|, Run(g, calls, Running);
    FirstAreRead(b, n, r);
    var packages := PublishFirst(b, n, r);
    var latest := packages.(calls := packages.calls - 1);
    assert EnsureDistTag(b, RELEASE_ENTRY_PACKAGE, LATEST_DIST_TAG, packages) == latest;
    FirstAreRead(b, n, latest);
  }

  // ---------------------------------------------------------------- the publisher, call by call

  /** One process running `publish` or `verify` against a registry; `calls` is how many registry
      calls it makes before it is stopped from outside. Every method reports how it ended:
      `Running` when it returned normally, anything else when it threw or was stopped. */
  class RegistryPublication {
    const bundle: Bundle
    var stored: map<(string, string), string>
    var tags: map<(string, string), string>
    var calls: nat

    constructor (bundle: Bundle, registry: Registry, calls: nat)
      ensures this.bundle == bundle && Now(Running) == Run(registry, calls, Running)
    {
      this.bundle := bundle;
      stored, tags, this.calls := registry.stored, registry.tags, calls;
    }

    ghost function Now(end: End): Run
      reads this
    {
      Run(Registry(stored, tags), calls, end)
    }

    /** The next registry call, unless the process is stopped before it. */
    method Call() returns (end: End)
      modifies `calls
      ensures Now(end) == Spend(old(Now(Running)))
    {
      if calls == 0 {
        return Interrupted;
      }
      calls := calls - 1;
      end := Running;
    }

    method RemoteTag(name: string) returns (end: End)
      modifies `calls
      ensures Now(end) == ListTags(name, old(Now(Running)))
    {
      end := Call();
      if end.Running? && !(exists k :: k in stored && k.0 == name) {
        end := NoSuchPackage(name);
      }
    }

    method EnsureTag(name: string, tag: string) returns (end: End)
      modifies `calls, `tags
      ensures Now(end) == EnsureDistTag(bundle, name, tag, old(Now(Running)))
    {
      end := RemoteTag(name);
      if !end.Running? || ((name, tag) in tags && tags[(name, tag)] == bundle.version) {
        return;
      }
      end := Call();
      if !end.Running? {
        return;
      }
      if (name, bundle.version) !in stored {
        return NoSuchVersion(name);
      }
      tags := tags[(name, tag) := bundle.version];
    }

    method PublishPackage(p: Packed) returns (end: End)
      modifies `calls, `stored, `tags
      ensures Now(end) == PublishOne(bundle, p, old(Now(Running)))
    {
      end := Call();
      if !end.Running? {
        return;
      }
      if (p.name, bundle.version) !in stored {
        end := Call();
        if !end.Running? {
          return;
        }
        stored := stored[(p.name, bundle.version) := p.integrity];
        tags := tags[(p.name, bundle.distTag) := bundle.version];
      } else if stored[(p.name, bundle.version)] != p.integrity {
        return DifferentIntegrity(p.name);
      }
      end := EnsureTag(p.name, bundle.distTag);
    }

    method RunPublish() returns (end: End)
      modifies `calls, `stored, `tags
      ensures Now(end) == PublishAll(bundle, old(Now(Running)))
    {
      hide PublishOne, EnsureDistTag, VerifyAll;
      var n := |bundle.packages|;
      ghost var start := Now(Running);
      for i := 0 to n
        invariant Now(Running) == PublishFirst(bundle, i, start)
      {
        end := PublishPackage(bundle.packages[i]);
        if !end.Running? {
          EndedStays(bundle, i + 1, n, start);
          return;
        }
      }
      end := EnsureTag(RELEASE_ENTRY_PACKAGE, LATEST_DIST_TAG);
      if end.Running? {
        end := RunVerify();
      }
    }

    method RunVerify() returns (end: End)
      modifies `calls
      ensures Now(end) == VerifyAll(bundle, old(Now(Running)))
    {
      hide VerifyOne;
      var n := |bundle.packages|;
      for i := 0 to n
        invariant stored == old(stored) && tags == old(tags)
        invariant Now(Running) == VerifyFirst(bundle, i, old(Now(Running)))
      {
        end := VerifyPackage(bundle.packages[i]);
        if !end.Running? {
          VerifyEnded(bundle, i + 1, n, old(Now(Running)));
          return;
        }
      }
      end := RemoteTag(RELEASE_ENTRY_PACKAGE);
      if !end.Running? {
        return;
      }
      var key := (RELEASE_ENTRY_PACKAGE, LATEST_DIST_TAG);
      end := if key in tags && tags[key] == bundle.version then Completed else WrongTag(key.0, key.1);
    }

    method VerifyPackage(p: Packed) returns (end: End)
      modifies `calls
      ensures Now(end) == VerifyOne(bundle, p, old(Now(Running)))
    {
      end := Call();
      if !end.Running? {
        return;
      }
      if (p.name, bundle.version) !in stored {
        return MissingPackage(p.name);
      }
      if stored[(p.name, bundle.version)] != p.integrity {
        return IntegrityMismatch(p.name);
      }
      end := RemoteTag(p.name);
      if end.Running? && !((p.name, bundle.distTag) in tags && tags[(p.name, bundle.distTag)] == bundle.version) {
        end := WrongTag(p.name, bundle.distTag);
      }
    }
  }

  lemma {:induction false} VerifyEnded(b: Bundle, m: nat, n: nat, r: Run)
    requires m <= n <= |b.packages| && r.end.Running? && !VerifyFirst(b, m, r).end.Running?
    ensures VerifyFirst(b, n, r) == VerifyFirst(b, m, r)
    decreases n
  {
    if m < n {
      VerifyEnded(b, m, n - 1, r);
    }
  }
}
