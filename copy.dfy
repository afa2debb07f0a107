/**
 * The server dependency closure of grunt-conf/copy.js: which installed packages
 * a distribution build copies into dist/node_modules.
 *
 * The root manifest's direct dependencies are visited in order; a name that
 * matches `/norman.*client/` is skipped; every other name contributes its own
 * glob and the globs of the keys of its manifest's `peerDependencies` and
 * `dependencies`, with no filtering and no deeper traversal. The globs are the
 * keys of an insertion-ordered object, so the result keeps the first
 * discovery of each glob and drops the repeats.
 */
module Copy {
  import opened Wrappers
  import opened Text

  /**
   * What the resolver reads of a package.json: the keys, in insertion order,
   * of its three dependency objects, each `None` when the field is absent.
   * Version ranges are never read and are not modelled.
   */
  datatype Manifest = Manifest(
    dependencies: Option<seq<string>>,
    peerDependencies: Option<seq<string>>,
    devDependencies: Option<seq<string>>)

  /** The ways the resolution aborts the build. */
  datatype CopyError =
    | NoDependencies              // the root manifest has no `dependencies` object
    | MissingManifest(name: string) // node_modules/<name>/package.json cannot be read

  /** The installed package store: package name to its manifest. */
  type Store = map<string, Manifest>

  /** The inclusion glob of a package directory. */
  function Glob(name: string): (g: string)
    ensures |g| == |name| + 5 && g[..|name|] == name && g[|name|..] == "/**/*"
  {
    name + "/**/*"
  }

  lemma GlobInjective(a: string, b: string)
    ensures Glob(a) == Glob(b) <==> a == b
  {
    if Glob(a) == Glob(b) {
      assert |a| == |b|;
      assert a == Glob(a)[..|a|] == Glob(b)[..|b|] == b;
    }
  }

  /** The globs of a list of names, in order. */
  function Globs(names: seq<string>): (r: seq<string>)
    ensures |r| == |names|
    ensures forall i :: 0 <= i < |names| ==> r[i] == Glob(names[i])
  {
    if names == [] then [] else [Glob(names[0])] + Globs(names[1..])
  }

  /** The key list of an optional dependency object; an absent object adds nothing. */
  function Keys(field: Option<seq<string>>): (r: seq<string>)
    ensures field.None? ==> r == []
    ensures field.Some? ==> r == field.value
  {
    match field
    case None => []
    case Some(keys) => keys
  }

  // ---------------------------------------------------------------------
  // The client-exclusion predicate /norman.*client/
  // ---------------------------------------------------------------------

  /** `.*client` matches from `p`: "client" starts at some index at or after `p`, with no line terminator before it. */
  ghost predicate ClientAfter(s: string, p: nat)
  {
    exists q :: p <= q && OccursAt(s, "client", q) && forall t :: p <= t < q ==> !IsLineTerminator(s[t])
  }

  /** `/norman.*client/.test(s)`, as the regular expression defines it. */
  ghost predicate MatchesClientPattern(s: string)
  {
    exists i :: OccursAt(s, "norman", i) && ClientAfter(s, i + 6)
  }

  /** Scans forward from `p` for "client", giving up at the first line terminator. */
  function ClientFrom(s: string, p: nat): bool
    requires p <= |s|
    decreases |s| - p
  {
    if OccursAt(s, "client", p) then true
    else if p == |s| || IsLineTerminator(s[p]) then false
    else ClientFrom(s, p + 1)
  }

  /** The forward scan decides `.*client` from `p`. */
  lemma {:induction false} ClientFromMeaning(s: string, p: nat)
    requires p <= |s|
    ensures ClientFrom(s, p) <==> ClientAfter(s, p)
    decreases |s| - p
  {
    if !OccursAt(s, "client", p) && p < |s| && !IsLineTerminator(s[p]) {
      ClientFromMeaning(s, p + 1);
      if ClientFrom(s, p + 1) {
        var q :| p + 1 <= q && OccursAt(s, "client", q) && forall t :: p + 1 <= t < q ==> !IsLineTerminator(s[t]);
        assert p <= q && forall t :: p <= t < q ==> !IsLineTerminator(s[t]);
      }
      if ClientAfter(s, p) {
        var q :| p <= q && OccursAt(s, "client", q) && forall t :: p <= t < q ==> !IsLineTerminator(s[t]);
        assert q != p;
        assert ClientAfter(s, p + 1);
      }
    }
  }

  /** Tries every start index from `i` on for "norman" followed by `.*client`. */
  function NormanFrom(s: string, i: nat): bool
    requires i <= |s|
    decreases |s| - i
  {
    if OccursAt(s, "norman", i) && ClientFrom(s, i + 6) then true
    else if i == |s| then false
    else NormanFrom(s, i + 1)
  }

  /** The scan over start indices finds a "norman" followed by `.*client` exactly when there is one from `i` on. */
  lemma {:induction false} NormanFromMeaning(s: string, i: nat)
    requires i <= |s|
    ensures NormanFrom(s, i) <==> exists k :: i <= k && OccursAt(s, "norman", k) && ClientAfter(s, k + 6)
    decreases |s| - i
  {
    if OccursAt(s, "norman", i) {
      ClientFromMeaning(s, i + 6);
    }
    if i < |s| && !(OccursAt(s, "norman", i) && ClientFrom(s, i + 6)) {
      NormanFromMeaning(s, i + 1);
      if exists k :: i <= k && OccursAt(s, "norman", k) && ClientAfter(s, k + 6) {
        var k :| i <= k && OccursAt(s, "norman", k) && ClientAfter(s, k + 6);
        assert k != i;
      }
    }
  }

  /** The client-exclusion predicate: `clientRegExp.test(name)`. */
  predicate IsClientPackage(name: string)
  {
    NormanFrom(name, 0)
  }

  /** The scan decides the regular expression: it excludes exactly the names the pattern matches. */
  lemma IsClientPackageMeaning(name: string)
    ensures IsClientPackage(name) <==> MatchesClientPattern(name)
  {
    NormanFromMeaning(name, 0);
  }

  /** A name is kept when every "norman" in it starts too late for a "client" to follow. */
  lemma NormanTooLate(name: string)
    requires forall i :: OccursAt(name, "norman", i) ==> |name| < i + 12
    ensures !IsClientPackage(name)
  {
    IsClientPackageMeaning(name);
  }

  /** An excluded name holds both tokens, so a name shorter than twelve characters is always kept. */
  lemma ShortNameKept(name: string)
    requires |name| < 12
    ensures !IsClientPackage(name)
  {
    NormanTooLate(name);
  }

  lemma CommonClientExcluded()
    ensures IsClientPackage("norman-common-client")
  {
    var a := "norman-common-client";
    assert a == "norman" + "-common-" + "client";
    assert OccursAt(a, "norman", 0) && OccursAt(a, "client", 14);
    assert forall t :: 6 <= t < 14 ==> !IsLineTerminator(a[t]);
    assert ClientAfter(a, 6);
    assert MatchesClientPattern(a);
    IsClientPackageMeaning(a);
  }

  lemma ClientPrefixKept()
    ensures !IsClientPackage("client-norman")
  {
    var b := "client-norman";
    forall i | OccursAt(b, "norman", i) ensures |b| < i + 12 {
      assert b[i] == b[i..i + 6][0] == 'n';
      assert b[0] == 'c' && b[1] == 'l';
    }
    NormanTooLate(b);
  }

  // ---------------------------------------------------------------------
  // Discovery order and de-duplication
  // ---------------------------------------------------------------------

  /** The globs one kept direct dependency contributes, in the order the source adds them. */
  function Contribution(name: string, m: Manifest): seq<string>
  {
    [Glob(name)] + Globs(Keys(m.peerDependencies)) + Globs(Keys(m.dependencies))
  }

  /**
   * Every glob the loop over `direct` adds, repeats included, in the order it
   * adds them; the first kept name whose manifest is missing aborts.
   */
  function Discover(direct: seq<string>, store: Store): Result<seq<string>, CopyError>
    decreases |direct|
  {
    if direct == [] then Success([])
    else
      var last := direct[|direct| - 1];
      match Discover(direct[..|direct| - 1], store)
      case Failure(e) => Failure(e)
      case Success(found) =>
        if IsClientPackage(last) then Success(found)
        else if last !in store then Failure(MissingManifest(last))
        else Success(found + Contribution(last, store[last]))
  }

  /** Setting a key of an object: a new key goes to the end, an existing one stays where it is. */
  function Insert(keys: seq<string>, g: string): (r: seq<string>)
    ensures g in keys ==> r == keys
    ensures g !in keys ==> r == keys + [g]
  {
    if g in keys then keys else keys + [g]
  }

  /** The key list of an object whose keys were set in the order `xs`. */
  function Dedup(xs: seq<string>): seq<string>
    decreases |xs|
  {
    if xs == [] then [] else Insert(Dedup(xs[..|xs| - 1]), xs[|xs| - 1])
  }

  /** `getServerDependencies`: `Object.keys(dependencies)` once the loop is done. */
  function ServerDependencies(root: Manifest, store: Store): Result<seq<string>, CopyError>
  {
    match root.dependencies
    case None => Failure(NoDependencies)
    case Some(direct) =>
      match Discover(direct, store)
      case Failure(e) => Failure(e)
      case Success(found) => Success(Dedup(found))
  }

  lemma DedupSnoc(xs: seq<string>, x: string)
    ensures Dedup(xs + [x]) == Insert(Dedup(xs), x)
  {
    assert (xs + [x])[..|xs + [x]| - 1] == xs;
  }

  /** No glob is listed twice. */
  predicate Distinct(s: seq<string>)
  {
    forall i, j :: 0 <= i < j < |s| ==> s[i] != s[j]
  }

  lemma {:induction false} DedupDistinct(xs: seq<string>)
    ensures Distinct(Dedup(xs))
    decreases |xs|
  {
    if xs != [] { DedupDistinct(xs[..|xs| - 1]); }
  }

  lemma {:induction false} DedupMembers(xs: seq<string>)
    ensures forall x :: x in Dedup(xs) <==> x in xs
    decreases |xs|
  {
    if xs != [] {
      var init, last := xs[..|xs| - 1], xs[|xs| - 1];
      DedupMembers(init);
      assert xs == init + [last];
      forall x ensures x in Dedup(xs) <==> x in xs {
        assert x in Dedup(xs) <==> x in Dedup(init) || x == last;
        assert x in xs <==> x in init || x == last;
      }
    }
  }

  /** Keys set later never move a key that is already there. */
  lemma {:induction false} DedupPrefix(xs: seq<string>, ys: seq<string>)
    ensures Dedup(xs) <= Dedup(xs + ys)
    decreases |ys|
  {
    if ys != [] {
      var init, last := ys[..|ys| - 1], ys[|ys| - 1];
      DedupPrefix(xs, init);
      assert ys == init + [last];
      assert xs + ys == (xs + init) + [last];
      DedupSnoc(xs + init, last);
      assert Dedup(xs + init) <= Insert(Dedup(xs + init), last);
    } else {
      assert xs + ys == xs;
    }
  }

  /** The index of the first occurrence of `x` in `xs`. */
  function FirstIndex(xs: seq<string>, x: string): (k: nat)
    requires x in xs
    ensures k < |xs| && xs[k] == x && x !in xs[..k]
  {
    if xs[0] == x then 0
    else
      var k := FirstIndex(xs[1..], x);
      assert xs[..k + 1] == [xs[0]] + xs[1..][..k];
      k + 1
  }

  lemma FirstIndexSnoc(xs: seq<string>, x: string, y: string)
    requires y in xs
    ensures y in xs + [x] && FirstIndex(xs + [x], y) == FirstIndex(xs, y)
  {
    var k, k' := FirstIndex(xs, y), FirstIndex(xs + [x], y);
    assert (xs + [x])[k] == y;
    assert forall t :: 0 <= t < |xs| ==> (xs + [x])[t] == xs[t];
    assert forall t :: 0 <= t < k ==> xs[t] != y;
    assert forall t :: 0 <= t < k' ==> (xs + [x])[t] != y;
  }

  /** `keys` lists elements of `xs` in the order of their first occurrence in `xs`. */
  ghost predicate InDiscoveryOrder(xs: seq<string>, keys: seq<string>)
  {
    forall i, j :: 0 <= i < j < |keys| ==>
      keys[i] in xs && keys[j] in xs && FirstIndex(xs, keys[i]) < FirstIndex(xs, keys[j])
  }

  lemma InDiscoveryOrderSnoc(xs: seq<string>, keys: seq<string>, x: string)
    requires InDiscoveryOrder(xs, keys)
    requires forall y :: y in keys <==> y in xs
    ensures InDiscoveryOrder(xs + [x], Insert(keys, x))
  {
    var xs', keys' := xs + [x], Insert(keys, x);
    forall i, j | 0 <= i < j < |keys'|
      ensures keys'[i] in xs' && keys'[j] in xs' && FirstIndex(xs', keys'[i]) < FirstIndex(xs', keys'[j])
    {
      assert keys[i] in keys;
      FirstIndexSnoc(xs, x, keys[i]);
      if j < |keys| {
        assert keys[j] in keys;
        FirstIndexSnoc(xs, x, keys[j]);
      } else {
        assert keys'[j] == x && x !in xs;
        assert forall t :: 0 <= t < |xs| ==> xs'[t] == xs[t];
      }
    }
  }

  /** The keys are listed in the order of their first discovery. */
  lemma {:induction false} DedupInDiscoveryOrder(xs: seq<string>)
    ensures InDiscoveryOrder(xs, Dedup(xs))
    decreases |xs|
  {
    if xs != [] {
      var init, x := xs[..|xs| - 1], xs[|xs| - 1];
      assert xs == init + [x];
      DedupInDiscoveryOrder(init);
      DedupMembers(init);
      InDiscoveryOrderSnoc(init, Dedup(init), x);
    }
  }

  // ---------------------------------------------------------------------
  // What the resolver promises
  // ---------------------------------------------------------------------

  /** `n` is a kept direct dependency, or a peer or dependency of one. */
  ghost predicate Reachable(direct: seq<string>, store: Store, n: string)
  {
    (n in direct && !IsClientPackage(n)) ||
    exists d :: d in direct && !IsClientPackage(d) && d in store &&
      (n in Keys(store[d].peerDependencies) || n in Keys(store[d].dependencies))
  }

  /** A kept direct dependency contributes its glob, its peers' globs and its dependencies' globs. */
  ghost predicate Covers(found: seq<string>, d: string, store: Store)
    requires d in store
  {
    Glob(d) in found &&
    (forall p :: p in Keys(store[d].peerDependencies) ==> Glob(p) in found) &&
    (forall p :: p in Keys(store[d].dependencies) ==> Glob(p) in found)
  }

  lemma GlobsMembers(names: seq<string>, n: string)
    ensures n in names ==> Glob(n) in Globs(names)
    ensures forall g :: g in Globs(names) ==> exists m :: m in names && g == Glob(m)
  {
    if n in names {
      var i :| 0 <= i < |names| && names[i] == n;
      assert Globs(names)[i] == Glob(n);
    }
    forall g | g in Globs(names) ensures exists m :: m in names && g == Glob(m) {
      var i :| 0 <= i < |Globs(names)| && Globs(names)[i] == g;
      assert names[i] in names;
    }
  }

  /** Discovery fails exactly when some kept direct dependency has no manifest. */
  lemma {:induction false} DiscoverFailure(direct: seq<string>, store: Store)
    ensures Discover(direct, store).Failure? <==> exists d :: d in direct && !IsClientPackage(d) && d !in store
    decreases |direct|
  {
    if direct != [] {
      var init, last := direct[..|direct| - 1], direct[|direct| - 1];
      assert direct == init + [last];
      DiscoverFailure(init, store);
      if Discover(init, store).Failure? {
        var d :| d in init && !IsClientPackage(d) && d !in store;
        assert d in direct;
      }
    }
  }

  /** A successful discovery covers every kept direct dependency. */
  lemma {:induction false} DiscoverComplete(direct: seq<string>, store: Store)
    requires Discover(direct, store).Success?
    ensures forall d :: d in direct && !IsClientPackage(d) ==> d in store && Covers(Discover(direct, store).value, d, store)
    decreases |direct|
  {
    if direct != [] {
      var init, last := direct[..|direct| - 1], direct[|direct| - 1];
      assert direct == init + [last];
      DiscoverComplete(init, store);
      var found := Discover(init, store).value;
      if !IsClientPackage(last) {
        var m := store[last];
        var all := found + Contribution(last, m);
        assert Discover(direct, store) == Success(all);
        forall d | d in direct && !IsClientPackage(d) ensures d in store && Covers(all, d, store) {
          if d == last {
            assert Glob(d) in all by { assert all[|found|] == Glob(d); }
            forall p | p in Keys(m.peerDependencies) ensures Glob(p) in all {
              GlobsMembers(Keys(m.peerDependencies), p);
            }
            forall p | p in Keys(m.dependencies) ensures Glob(p) in all {
              GlobsMembers(Keys(m.dependencies), p);
            }
          } else {
            assert d in init;
          }
        }
      }
    }
  }

  /** Reachability only grows with the list of direct dependencies. */
  lemma ReachableGrows(init: seq<string>, direct: seq<string>, store: Store, n: string)
    requires forall d :: d in init ==> d in direct
    requires Reachable(init, store, n)
    ensures Reachable(direct, store, n)
  {
    if !(n in init && !IsClientPackage(n)) {
      var d :| d in init && !IsClientPackage(d) && d in store &&
        (n in Keys(store[d].peerDependencies) || n in Keys(store[d].dependencies));
      assert d in direct;
    }
  }

  /** Every glob a discovery finds is that of a reachable name. */
  lemma {:induction false} DiscoverSound(direct: seq<string>, store: Store)
    requires Discover(direct, store).Success?
    ensures forall g :: g in Discover(direct, store).value ==> exists n :: g == Glob(n) && Reachable(direct, store, n)
    decreases |direct|
  {
    if direct != [] {
      var init, last := direct[..|direct| - 1], direct[|direct| - 1];
      assert direct == init + [last];
      DiscoverSound(init, store);
      var found := Discover(init, store).value;
      assert forall d :: d in init ==> d in direct;
      forall g | g in found ensures exists n :: g == Glob(n) && Reachable(direct, store, n) {
        var n :| g == Glob(n) && Reachable(init, store, n);
        ReachableGrows(init, direct, store, n);
      }
      if !IsClientPackage(last) {
        var m := store[last];
        ContributionSound(direct, store, last);
      }
    }
  }

  /** The globs a kept direct dependency contributes are those of reachable names. */
  lemma ContributionSound(direct: seq<string>, store: Store, last: string)
    requires last in direct && !IsClientPackage(last) && last in store
    ensures forall g :: g in Contribution(last, store[last]) ==> exists n :: g == Glob(n) && Reachable(direct, store, n)
  {
    var m := store[last];
    assert Reachable(direct, store, last);
    GlobsMembers(Keys(m.peerDependencies), last);
    GlobsMembers(Keys(m.dependencies), last);
    forall g | g in Contribution(last, m) ensures exists n :: g == Glob(n) && Reachable(direct, store, n) {
      if g == Glob(last) {
      } else if g in Globs(Keys(m.peerDependencies)) {
        var n :| n in Keys(m.peerDependencies) && g == Glob(n);
        assert Reachable(direct, store, n);
      } else {
        var n :| n in Keys(m.dependencies) && g == Glob(n);
        assert Reachable(direct, store, n);
      }
    }
  }

  /** Completeness: every kept direct dependency, its peers and its dependencies are copied. */
  lemma ServerDependenciesComplete(root: Manifest, store: Store)
    requires ServerDependencies(root, store).Success?
    ensures forall d :: d in root.dependencies.value && !IsClientPackage(d) ==>
      d in store && Covers(ServerDependencies(root, store).value, d, store)
  {
    var found := Discover(root.dependencies.value, store).value;
    DiscoverComplete(root.dependencies.value, store);
    DedupMembers(found);
  }

  /** Soundness and fixed depth: each entry is the glob of a kept direct dependency or of a peer or dependency of one. */
  lemma ServerDependenciesSound(root: Manifest, store: Store)
    requires ServerDependencies(root, store).Success?
    ensures forall g :: g in ServerDependencies(root, store).value ==>
      exists n :: g == Glob(n) && Reachable(root.dependencies.value, store, n)
  {
    var found := Discover(root.dependencies.value, store).value;
    DiscoverSound(root.dependencies.value, store);
    DedupMembers(found);
  }

  /** No glob is listed twice, and the entries keep the order of their first discovery. */
  lemma ServerDependenciesOrdered(root: Manifest, store: Store)
    requires ServerDependencies(root, store).Success?
    ensures Distinct(ServerDependencies(root, store).value)
    ensures ServerDependencies(root, store).value == Dedup(Discover(root.dependencies.value, store).value)
    ensures InDiscoveryOrder(Discover(root.dependencies.value, store).value, ServerDependencies(root, store).value)
  {
    var found := Discover(root.dependencies.value, store).value;
    DedupDistinct(found);
    DedupInDiscoveryOrder(found);
  }

  /** The resolution aborts exactly when the root has no dependencies or a kept direct dependency has no manifest. */
  lemma ServerDependenciesFailure(root: Manifest, store: Store)
    ensures ServerDependencies(root, store).Failure? <==>
      root.dependencies.None? ||
      exists d :: d in root.dependencies.value && !IsClientPackage(d) && d !in store
  {
    if root.dependencies.Some? { DiscoverFailure(root.dependencies.value, store); }
  }

  /** The error names the first kept direct dependency whose manifest is missing. */
  lemma {:induction false} DiscoverFirstMissing(direct: seq<string>, store: Store, k: nat)
    requires k < |direct| && !IsClientPackage(direct[k]) && direct[k] !in store
    requires forall i :: 0 <= i < k ==> IsClientPackage(direct[i]) || direct[i] in store
    ensures Discover(direct, store) == Failure(MissingManifest(direct[k]))
    decreases |direct|
  {
    var init := direct[..|direct| - 1];
    if k == |direct| - 1 {
      DiscoverFailure(init, store);
      forall d | d in init && !IsClientPackage(d) ensures d in store {
        var i :| 0 <= i < |init| && init[i] == d;
        assert direct[i] == d;
      }
    } else {
      DiscoverFirstMissing(init, store, k);
    }
  }

  /** Manifests of excluded names are never read: changing them changes nothing. */
  lemma {:induction false} DiscoverIgnoresExcluded(direct: seq<string>, store: Store, store': Store)
    requires forall n :: !IsClientPackage(n) ==> (n in store <==> n in store')
    requires forall n :: !IsClientPackage(n) && n in store ==> store[n] == store'[n]
    ensures Discover(direct, store) == Discover(direct, store')
    decreases |direct|
  {
    if direct != [] { DiscoverIgnoresExcluded(direct[..|direct| - 1], store, store'); }
  }

  lemma ServerDependenciesIgnoresExcluded(root: Manifest, store: Store, store': Store)
    requires forall n :: !IsClientPackage(n) ==> (n in store <==> n in store')
    requires forall n :: !IsClientPackage(n) && n in store ==> store[n] == store'[n]
    ensures ServerDependencies(root, store) == ServerDependencies(root, store')
  {
    if root.dependencies.Some? { DiscoverIgnoresExcluded(root.dependencies.value, store, store'); }
  }

  /** Two stores that agree on which packages exist and on their peers and dependencies. */
  ghost predicate SameServerFields(store: Store, store': Store)
  {
    (forall n :: n in store <==> n in store') &&
    forall n :: n in store ==>
      store[n].peerDependencies == store'[n].peerDependencies && store[n].dependencies == store'[n].dependencies
  }

  /** `devDependencies` are never read: stores that differ only there discover the same globs. */
  lemma {:induction false} DiscoverIgnoresDevDependencies(direct: seq<string>, store: Store, store': Store)
    requires SameServerFields(store, store')
    ensures Discover(direct, store) == Discover(direct, store')
    decreases |direct|
  {
    if direct != [] {
      var last := direct[|direct| - 1];
      DiscoverIgnoresDevDependencies(direct[..|direct| - 1], store, store');
      if last in store {
        assert Contribution(last, store[last]) == Contribution(last, store'[last]);
      }
    }
  }

  /** Neither the root's nor any package's `devDependencies` affect the result. */
  lemma ServerDependenciesIgnoresDevDependencies(root: Manifest, root': Manifest, store: Store, store': Store)
    requires root.dependencies == root'.dependencies && SameServerFields(store, store')
    ensures ServerDependencies(root, store) == ServerDependencies(root', store')
  {
    if root.dependencies.Some? { DiscoverIgnoresDevDependencies(root.dependencies.value, store, store'); }
  }

  /** A root whose only dependency is a client package copies nothing; its manifest need not exist. */
  lemma OnlyClientDependency(store: Store)
    ensures ServerDependencies(Manifest(Some(["norman-common-client"]), None, None), store) == Success([])
  {
    CommonClientExcluded();
    var direct := ["norman-common-client"];
    assert direct[..0] == [];
  }

  /**
   * A kept `a` with peer `p` and dependency `d`, where `d` depends on `e`:
   * the result is exactly the globs of `a`, `p` and `d`, in that order; `e`
   * is a third-level name and is not copied.
   */
  lemma TwoLevelsOnly(a: string, p: string, d: string, e: string)
    requires !IsClientPackage(a)
    requires a != p && a != d && p != d && e !in {a, p, d}
    ensures var store := map[a := Manifest(Some([d]), Some([p]), None), d := Manifest(Some([e]), None, None)];
      var r := ServerDependencies(Manifest(Some([a]), None, None), store);
      r == Success([Glob(a), Glob(p), Glob(d)]) && Glob(e) !in r.value
  {
    var store := map[a := Manifest(Some([d]), Some([p]), None), d := Manifest(Some([e]), None, None)];
    var direct := [a];
    assert direct[..0] == [];
    assert Globs([p]) == [Glob(p)] && Globs([d]) == [Glob(d)];
    var found := [Glob(a), Glob(p), Glob(d)];
    assert Discover(direct[..0], store) == Success([]);
    assert store[a] == Manifest(Some([d]), Some([p]), None);
    assert Contribution(a, store[a]) == found;
    assert [] + found == found;
    assert Discover(direct, store) == Success(found);
    GlobInjective(a, p); GlobInjective(a, d); GlobInjective(p, d);
    GlobInjective(e, a); GlobInjective(e, p); GlobInjective(e, d);
    assert found[..2][..1][..0] == [];
    assert found[..2][..1] == [Glob(a)];
    assert found[..2] == [Glob(a), Glob(p)];
    assert Dedup(found[..2][..1]) == [Glob(a)];
    assert Dedup(found[..2]) == [Glob(a), Glob(p)];
    assert found[..|found| - 1] == found[..2];
    assert Dedup(found) == [Glob(a), Glob(p), Glob(d)];
    assert ServerDependencies(Manifest(Some(direct), None, None), store) == Success([Glob(a), Glob(p), Glob(d)]);
  }

  /**
   * Two kept direct dependencies `a` and `b` that share the peer `p` list it
   * once; `b`'s peer `c` is listed even when it is a client package, because
   * second-level names are not filtered.
   */
  lemma SharedPeerOnce(a: string, b: string, p: string, c: string)
    requires !IsClientPackage(a) && !IsClientPackage(b)
    requires a != b && p !in {a, b} && c !in {a, b, p}
    ensures var store := map[a := Manifest(None, Some([p]), None), b := Manifest(None, Some([p, c]), None)];
      ServerDependencies(Manifest(Some([a, b]), None, None), store) ==
        Success([Glob(a), Glob(p), Glob(b), Glob(c)])
  {
    var store := map[a := Manifest(None, Some([p]), None), b := Manifest(None, Some([p, c]), None)];
    SharedPeerDiscovery(a, b, p, c);
    GlobInjective(a, b); GlobInjective(a, p); GlobInjective(b, p);
    GlobInjective(c, a); GlobInjective(c, b); GlobInjective(c, p);
    SharedPeerDedup(Glob(a), Glob(b), Glob(p), Glob(c));
  }

  lemma SharedPeerDiscovery(a: string, b: string, p: string, c: string)
    requires !IsClientPackage(a) && !IsClientPackage(b) && a != b
    ensures var store := map[a := Manifest(None, Some([p]), None), b := Manifest(None, Some([p, c]), None)];
      Discover([a, b], store) == Success([Glob(a), Glob(p), Glob(b), Glob(p), Glob(c)])
  {
    var store := map[a := Manifest(None, Some([p]), None), b := Manifest(None, Some([p, c]), None)];
    var direct := [a, b];
    assert direct[..1] == [a] && direct[..1][..0] == [];
    assert Globs([p]) == [Glob(p)];
    assert [p, c][1..] == [c];
    assert Globs([p, c]) == [Glob(p), Glob(c)];
    assert Discover(direct[..1][..0], store) == Success([]);
    assert Contribution(a, store[a]) == [Glob(a), Glob(p)];
    assert Contribution(b, store[b]) == [Glob(b), Glob(p), Glob(c)];
    assert [] + [Glob(a), Glob(p)] == [Glob(a), Glob(p)];
    assert Discover(direct[..1], store) == Success([Glob(a), Glob(p)]);
    assert direct[..|direct| - 1] == direct[..1] && direct[|direct| - 1] == b;
    assert [Glob(a), Glob(p)] + [Glob(b), Glob(p), Glob(c)] == [Glob(a), Glob(p), Glob(b), Glob(p), Glob(c)];
  }

  lemma SharedPeerDedup(ga: string, gb: string, gp: string, gc: string)
    requires ga != gb && gp !in {ga, gb} && gc !in {ga, gb, gp}
    ensures Dedup([ga, gp, gb, gp, gc]) == [ga, gp, gb, gc]
  {
    var f1, f2, f3, f4, f5 := [ga], [ga, gp], [ga, gp, gb], [ga, gp, gb, gp], [ga, gp, gb, gp, gc];
    assert f1[..0] == [] && f2[..1] == f1 && f3[..2] == f2 && f4[..3] == f3 && f5[..4] == f4;
    assert Dedup(f1) == f1;
    assert Dedup(f2) == f2;
    assert Dedup(f3) == f3;
    assert Dedup(f4) == f3;
  }

  /** The client package met as a peer in the example above. */
  lemma ClientPeerExample()
    ensures IsClientPackage("norman-x-client")
  {
    var c := "norman-x-client";
    assert c == "norman" + "-x-" + "client";
    assert OccursAt(c, "norman", 0) && OccursAt(c, "client", 9);
    assert forall t :: 6 <= t < 9 ==> !IsLineTerminator(c[t]);
    assert ClientAfter(c, 6);
    IsClientPackageMeaning(c);
  }

  // ---------------------------------------------------------------------
  // The imperative resolver
  // ---------------------------------------------------------------------

  /**
   * One `Object.keys(...).forEach` over a peer or dependency key list: sets
   * the glob of each name as a key of the accumulator, whose keys are
   * `keys` and whose key set is `seen`.
   */
  method SetGlobs(keys: seq<string>, seen: set<string>, names: seq<string>, ghost found: seq<string>)
    returns (keys': seq<string>, seen': set<string>)
    requires keys == Dedup(found) && forall g :: g in seen <==> g in keys
    ensures keys' == Dedup(found + Globs(names))
    ensures forall g :: g in seen' <==> g in keys'
  {
    keys', seen' := keys, seen;
    var j := 0;
    assert found + Globs(names[..0]) == found;
    while j < |names|
      invariant 0 <= j <= |names|
      invariant keys' == Dedup(found + Globs(names[..j]))
      invariant forall g :: g in seen' <==> g in keys'
    {
      var g := Glob(names[j]);
      if g !in seen' {
        keys' := keys' + [g];
        seen' := seen' + {g};
      }
      GlobsSnoc(names, j);
      assert found + Globs(names[..j + 1]) == (found + Globs(names[..j])) + [g];
      DedupSnoc(found + Globs(names[..j]), g);
      j := j + 1;
    }
    assert names[..|names|] == names;
  }

  /**
   * `getServerDependencies` (grunt-conf/copy.js): loops over the direct
   * dependencies, skips client packages, sets the glob of each kept name and
   * of its manifest's peers and dependencies as keys of an accumulator, and
   * returns the accumulator's keys.
   */
  method GetServerDependencies(root: Manifest, store: Store) returns (r: Result<seq<string>, CopyError>)
    ensures r == ServerDependencies(root, store)
  {
    if root.dependencies.None? {
      return Failure(NoDependencies);
    }
    var direct := root.dependencies.value;
    var keys: seq<string> := [];
    var seen: set<string> := {};
    ghost var found: seq<string> := [];
    var i := 0;
    while i < |direct|
      invariant 0 <= i <= |direct|
      invariant Discover(direct[..i], store) == Success(found)
      invariant keys == Dedup(found)
      invariant forall g :: g in seen <==> g in keys
    {
      var missing;
      ghost var found';
      keys, seen, found', missing := VisitDirect(keys, seen, direct[i], store, found);
      if missing {
        MissingManifestFails(root, store, i, found);
        return Failure(MissingManifest(direct[i]));
      }
      DiscoverStep(direct, i, store);
      found := found';
      i := i + 1;
    }
    DiscoverDone(root, store, found);
    return Success(keys);
  }

  /**
   * The body of the outer `forEach` for one direct dependency: skips a
   * client package, reports a missing manifest, and otherwise sets the
   * globs the name contributes.
   */
  method VisitDirect(keys: seq<string>, seen: set<string>, name: string, store: Store, ghost found: seq<string>)
    returns (keys': seq<string>, seen': set<string>, ghost found': seq<string>, missing: bool)
    requires keys == Dedup(found) && forall g :: g in seen <==> g in keys
    ensures missing <==> !IsClientPackage(name) && name !in store
    ensures !missing ==> found' == if IsClientPackage(name) then found else found + Contribution(name, store[name])
    ensures !missing ==> keys' == Dedup(found') && forall g :: g in seen' <==> g in keys'
  {
    keys', seen', found', missing := keys, seen, found, false;
    if !IsClientPackage(name) {
      if name !in store {
        missing := true;
      } else {
        keys', seen' := SetContribution(keys, seen, name, store[name], found);
        found' := found + Contribution(name, store[name]);
      }
    }
  }

  /** The loop went through every direct dependency. */
  lemma DiscoverDone(root: Manifest, store: Store, found: seq<string>)
    requires root.dependencies.Some?
    requires Discover(root.dependencies.value[..|root.dependencies.value|], store) == Success(found)
    ensures ServerDependencies(root, store) == Success(Dedup(found))
  {
    assert root.dependencies.value[..|root.dependencies.value|] == root.dependencies.value;
  }

  /** The loop meets a kept name without a manifest: the whole computation fails with it. */
  lemma MissingManifestFails(root: Manifest, store: Store, i: nat, found: seq<string>)
    requires root.dependencies.Some? && i < |root.dependencies.value|
    requires var direct := root.dependencies.value;
      Discover(direct[..i], store) == Success(found) && !IsClientPackage(direct[i]) && direct[i] !in store
    ensures ServerDependencies(root, store) == Failure(MissingManifest(root.dependencies.value[i]))
  {
    var direct := root.dependencies.value;
    DiscoverStep(direct, i, store);
    DiscoverPrefixFailure(direct, i + 1, store);
  }

  /** One iteration of the loop over the direct dependencies. */
  lemma DiscoverStep(direct: seq<string>, i: nat, store: Store)
    requires i < |direct|
    ensures var name := direct[i];
      Discover(direct[..i + 1], store) ==
        match Discover(direct[..i], store)
        case Failure(e) => Failure(e)
        case Success(found) =>
          if IsClientPackage(name) then Success(found)
          else if name !in store then Failure(MissingManifest(name))
          else Success(found + Contribution(name, store[name]))
  {
    assert direct[..i + 1][..i] == direct[..i];
  }

  /**
   * The body of the outer `forEach` for a kept name: sets the name's own
   * glob, then its peers' globs, then its dependencies' globs.
   */
  method SetContribution(keys: seq<string>, seen: set<string>, name: string, m: Manifest, ghost found: seq<string>)
    returns (keys': seq<string>, seen': set<string>)
    requires keys == Dedup(found) && forall g :: g in seen <==> g in keys
    ensures keys' == Dedup(found + Contribution(name, m))
    ensures forall g :: g in seen' <==> g in keys'
  {
    keys', seen' := SetGlobs(keys, seen, [name], found);
    ghost var step1 := found + Globs([name]);
    keys', seen' := SetGlobs(keys', seen', Keys(m.peerDependencies), step1);
    ghost var step2 := step1 + Globs(Keys(m.peerDependencies));
    keys', seen' := SetGlobs(keys', seen', Keys(m.dependencies), step2);
    ContributionSteps(found, name, m);
  }

  /** The three key-setting passes add one kept name's contribution. */
  lemma ContributionSteps(found: seq<string>, name: string, m: Manifest)
    ensures found + Globs([name]) + Globs(Keys(m.peerDependencies)) + Globs(Keys(m.dependencies)) ==
      found + Contribution(name, m)
  {
    assert Globs([name]) == [Glob(name)];
  }

  lemma GlobsSnoc(names: seq<string>, j: nat)
    requires j < |names|
    ensures Globs(names[..j + 1]) == Globs(names[..j]) + [Glob(names[j])]
  {
  }

  /** Once a prefix of the direct dependencies fails, the whole loop fails with the same error. */
  lemma {:induction false} DiscoverPrefixFailure(direct: seq<string>, k: nat, store: Store)
    requires k <= |direct| && Discover(direct[..k], store).Failure?
    ensures Discover(direct, store) == Discover(direct[..k], store)
    decreases |direct| - k
  {
    if k < |direct| {
      assert direct[..k + 1][..k] == direct[..k];
      assert Discover(direct[..k + 1], store) == Discover(direct[..k], store);
      DiscoverPrefixFailure(direct, k + 1, store);
    } else {
      assert direct[..k] == direct;
    }
  }
}
