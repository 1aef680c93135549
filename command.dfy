/**
 * The `yarn ng update-interactive` command (`commands/ng/update-interactive.tsx`)
 * around the interactive screen: collecting the dependencies of every
 * workspace, looking up the manifest a descriptor resolves to, writing the
 * chosen ranges back into the workspaces' manifests and building the
 * arguments of each migration run.
 */
module Command {
  import opened Wrappers
  import opened Seqs
  import opened Semver
  import opened Structs
  import opened Externals
  import opened OrderedMaps
  import opened Ranges
  import opened AppStates
  import opened Hook
  import opened Confirm

  // ---------------------------------------------------------------------------
  // getAllDependencies (lines 32-69)

  /**
   * A workspace's manifest: its dependency maps, keyed by package. The apply
   * loop (lines 210-225) rewrites these maps in place.
   */
  class Manifest {
    var dependencies: OMap<IdentHash, Descriptor>
    var devDependencies: OMap<IdentHash, Descriptor>
    var peerDependencies: OMap<IdentHash, Descriptor>

    constructor (dependencies: OMap<IdentHash, Descriptor>, devDependencies: OMap<IdentHash, Descriptor>, peerDependencies: OMap<IdentHash, Descriptor>)
      ensures this.dependencies == dependencies && this.devDependencies == devDependencies && this.peerDependencies == peerDependencies
    {
      this.dependencies := dependencies;
      this.devDependencies := devDependencies;
      this.peerDependencies := peerDependencies;
    }

    /** The manifest's three dependency maps. */
    function Current(): Maps
      reads this
    {
      Maps(dependencies, peerDependencies, devDependencies)
    }

    /**
     * Lines 211-224 on this manifest: `dependencies`, `peerDependencies` and
     * `devDependencies` in turn, each rewritten in place.
     */
    method ApplyUpdates(collection: OMap<IdentHash, UpdateEntry>) returns (changed: bool)
      modifies this
      ensures Current() == AppliedMaps(old(Current()), collection)
      ensures changed <==> MapsHaveUpdate(old(Current()), collection)
    {
      var regular, peer, dev;
      dependencies, regular := ApplyTo(dependencies, collection);
      peerDependencies, peer := ApplyTo(peerDependencies, collection);
      devDependencies, dev := ApplyTo(devDependencies, collection);
      changed := regular || peer || dev;
    }

    /** What the manifest requests, as `getAllDependencies` reads it. */
    function RequestsWith(installed: map<IdentHash, Descriptor>): Requests
      reads this
    {
      Requests(Values(dependencies), Values(devDependencies), Values(peerDependencies), installed)
    }
  }

  /** A workspace: its manifest and the descriptor installed for each package it depends on (`workspace.dependencies`). */
  datatype Workspace = Workspace(manifest: Manifest, installed: map<IdentHash, Descriptor>)

  /** The descriptors one workspace requests, in manifest order, with what it has installed. */
  datatype Requests = Requests(
    dependencies: seq<Descriptor>,
    devDependencies: seq<Descriptor>,
    peerDependencies: seq<Descriptor>,
    installed: map<IdentHash, Descriptor>
  )

  /** What the workspaces request, read from their manifests. */
  function Snapshot(workspaces: seq<Workspace>): (r: seq<Requests>)
    reads set k | 0 <= k < |workspaces| :: workspaces[k].manifest
    ensures |r| == |workspaces|
    decreases |workspaces|
  {
    if |workspaces| == 0 then []
    else
      var init, last := workspaces[..|workspaces| - 1], workspaces[|workspaces| - 1];
      Snapshot(init) + [last.manifest.RequestsWith(last.installed)]
  }

  /** `workspace.dependencies.get(ident)` */
  function InstalledOf(installed: map<IdentHash, Descriptor>, ident: IdentHash): Option<Descriptor> {
    if ident in installed then Some(installed[ident]) else None
  }

  /** Lines 42-51: each regular or dev dependency not resolved by a workspace is recorded, with what is installed for it. */
  function AddRequested(m: OMap<Descriptor, Dependency>, ds: seq<Descriptor>, installed: map<IdentHash, Descriptor>, isWorkspace: Descriptor -> bool): OMap<Descriptor, Dependency>
    decreases |ds|
  {
    if |ds| == 0 then m
    else
      var prev, last := AddRequested(m, ds[..|ds| - 1], installed, isWorkspace), ds[|ds| - 1];
      if isWorkspace(last) then prev else Put(prev, last, Dependency(last, InstalledOf(installed, last.ident)))
  }

  /** Lines 54-65: each peer dependency not resolved by a workspace is recorded, unless already present, with nothing installed. */
  function AddPeers(m: OMap<Descriptor, Dependency>, ds: seq<Descriptor>, isWorkspace: Descriptor -> bool): OMap<Descriptor, Dependency>
    decreases |ds|
  {
    if |ds| == 0 then m
    else
      var prev, last := AddPeers(m, ds[..|ds| - 1], isWorkspace), ds[|ds| - 1];
      if isWorkspace(last) || last in prev.entries then prev else Put(prev, last, Dependency(last, None))
  }

  /** Lines 41-65 for one workspace. */
  function AddWorkspace(m: OMap<Descriptor, Dependency>, w: Requests, isWorkspace: Descriptor -> bool): OMap<Descriptor, Dependency> {
    var regular := AddRequested(m, w.dependencies, w.installed, isWorkspace);
    var dev := AddRequested(regular, w.devDependencies, w.installed, isWorkspace);
    AddPeers(dev, w.peerDependencies, isWorkspace)
  }

  /**
   * `getAllDependencies`: every descriptor the workspaces request, keyed by
   * descriptor; `isWorkspace` is `project.tryWorkspaceByDescriptor`.
   */
  function AllDependencies(ws: seq<Requests>, isWorkspace: Descriptor -> bool): OMap<Descriptor, Dependency>
    decreases |ws|
  {
    if |ws| == 0 then Empty()
    else AddWorkspace(AllDependencies(ws[..|ws| - 1], isWorkspace), ws[|ws| - 1], isWorkspace)
  }

  /** The loop on lines 42-51 over one dependency type. */
  method RecordRequested(m: OMap<Descriptor, Dependency>, ds: seq<Descriptor>, installed: map<IdentHash, Descriptor>, isWorkspace: Descriptor -> bool)
    returns (r: OMap<Descriptor, Dependency>)
    ensures r == AddRequested(m, ds, installed, isWorkspace)
  {
    r := m;
    for n := 0 to |ds|
      invariant r == AddRequested(m, ds[..n], installed, isWorkspace)
    {
      assert ds[..n + 1][..n] == ds[..n];
      var requested := ds[n];
      if isWorkspace(requested) {
        continue;
      }
      r := Put(r, requested, Dependency(requested, InstalledOf(installed, requested.ident)));
    }
    assert ds[..|ds|] == ds;
  }

  /** The loop on lines 54-65. */
  method RecordPeers(m: OMap<Descriptor, Dependency>, ds: seq<Descriptor>, isWorkspace: Descriptor -> bool)
    returns (r: OMap<Descriptor, Dependency>)
    ensures r == AddPeers(m, ds, isWorkspace)
  {
    r := m;
    for n := 0 to |ds|
      invariant r == AddPeers(m, ds[..n], isWorkspace)
    {
      assert ds[..n + 1][..n] == ds[..n];
      var requested := ds[n];
      if isWorkspace(requested) {
        continue;
      }
      if requested !in r.entries {
        r := Put(r, requested, Dependency(requested, None));
      }
    }
    assert ds[..|ds|] == ds;
  }

  /**
   * `getAllDependencies` (lines 32-69), proved to build `AllDependencies` of
   * what the manifests hold. Nothing writes to a manifest meanwhile, so the
   * manifests are read up front.
   */
  method GetAllDependencies(workspaces: seq<Workspace>, isWorkspace: Descriptor -> bool) returns (r: OMap<Descriptor, Dependency>)
    ensures r == AllDependencies(Snapshot(workspaces), isWorkspace)
  {
    var requests := Snapshot(workspaces);
    r := Empty();
    for n := 0 to |requests|
      invariant unchanged(set k | 0 <= k < |workspaces| :: workspaces[k].manifest)
      invariant r == AllDependencies(requests[..n], isWorkspace)
    {
      assert requests[..n + 1][..n] == requests[..n];
      var w := requests[n];
      // the dependency types `dependencies` and `devDependencies`, in turn
      r := RecordRequested(r, w.dependencies, w.installed, isWorkspace);
      r := RecordRequested(r, w.devDependencies, w.installed, isWorkspace);
      r := RecordPeers(r, w.peerDependencies, isWorkspace);
    }
    assert requests[..|requests|] == requests;
  }

  /** `w` lists `d` among its regular, dev or peer dependencies. */
  predicate RequestedBy(w: Requests, d: Descriptor) {
    d in w.dependencies || d in w.devDependencies || d in w.peerDependencies
  }

  /**
   * What is installed for `d`: as recorded by the last workspace listing it
   * among its regular or dev dependencies; nothing when only peer
   * dependencies name it.
   */
  function InstalledFor(ws: seq<Requests>, d: Descriptor): Option<Descriptor>
    decreases |ws|
  {
    if |ws| == 0 then None
    else
      var last := ws[|ws| - 1];
      if d in last.dependencies || d in last.devDependencies then InstalledOf(last.installed, d.ident)
      else InstalledFor(ws[..|ws| - 1], d)
  }

  /** Recording regular or dev dependencies adds exactly those not resolved by a workspace, each with what is installed for it. */
  lemma {:induction false} AddRequestedEntries(m: OMap<Descriptor, Dependency>, ds: seq<Descriptor>, installed: map<IdentHash, Descriptor>, isWorkspace: Descriptor -> bool)
    ensures forall d :: d in AddRequested(m, ds, installed, isWorkspace).entries <==> d in m.entries || (d in ds && !isWorkspace(d))
    ensures forall d :: d in AddRequested(m, ds, installed, isWorkspace).entries ==>
      AddRequested(m, ds, installed, isWorkspace).entries[d] ==
        if d in ds && !isWorkspace(d) then Dependency(d, InstalledOf(installed, d.ident)) else m.entries[d]
    decreases |ds|
  {
    if |ds| > 0 {
      var init, last := ds[..|ds| - 1], ds[|ds| - 1];
      AddRequestedEntries(m, init, installed, isWorkspace);
      assert forall d :: d in ds <==> d in init || d == last by {
        assert ds == init + [last];
      }
    }
  }

  /** Recording peer dependencies adds those not resolved by a workspace and not yet present, with nothing installed. */
  lemma {:induction false} AddPeersEntries(m: OMap<Descriptor, Dependency>, ds: seq<Descriptor>, isWorkspace: Descriptor -> bool)
    ensures forall d :: d in AddPeers(m, ds, isWorkspace).entries <==> d in m.entries || (d in ds && !isWorkspace(d))
    ensures forall d :: d in AddPeers(m, ds, isWorkspace).entries ==>
      AddPeers(m, ds, isWorkspace).entries[d] == if d in m.entries then m.entries[d] else Dependency(d, None)
    decreases |ds|
  {
    if |ds| > 0 {
      var init, last := ds[..|ds| - 1], ds[|ds| - 1];
      AddPeersEntries(m, init, isWorkspace);
      assert forall d :: d in ds <==> d in init || d == last by {
        assert ds == init + [last];
      }
    }
  }

  /** One workspace's dependencies, recorded after those of the workspaces before it. */
  lemma AddWorkspaceEntries(m: OMap<Descriptor, Dependency>, w: Requests, isWorkspace: Descriptor -> bool)
    ensures forall d :: d in AddWorkspace(m, w, isWorkspace).entries <==> d in m.entries || (RequestedBy(w, d) && !isWorkspace(d))
    ensures forall d :: d in AddWorkspace(m, w, isWorkspace).entries ==>
      AddWorkspace(m, w, isWorkspace).entries[d] ==
        if (d in w.dependencies || d in w.devDependencies) && !isWorkspace(d) then Dependency(d, InstalledOf(w.installed, d.ident))
        else if d in m.entries then m.entries[d]
        else Dependency(d, None)
  {
    var regular := AddRequested(m, w.dependencies, w.installed, isWorkspace);
    var dev := AddRequested(regular, w.devDependencies, w.installed, isWorkspace);
    AddRequestedEntries(m, w.dependencies, w.installed, isWorkspace);
    AddRequestedEntries(regular, w.devDependencies, w.installed, isWorkspace);
    AddPeersEntries(dev, w.peerDependencies, isWorkspace);
  }

  /** Something is installed for `d` only if some workspace lists it as a regular or dev dependency. */
  lemma {:induction false} InstalledForListed(ws: seq<Requests>, d: Descriptor)
    requires InstalledFor(ws, d).Some?
    ensures exists k :: 0 <= k < |ws| && RequestedBy(ws[k], d)
    decreases |ws|
  {
    var init, w := ws[..|ws| - 1], ws[|ws| - 1];
    if !(d in w.dependencies || d in w.devDependencies) {
      InstalledForListed(init, d);
      var k :| 0 <= k < |init| && RequestedBy(init[k], d);
      assert ws[k] == init[k];
    }
  }

  /** Lines 40-65: a descriptor is collected exactly when some workspace requests it and no workspace resolves it. */
  lemma {:induction false} AllDependenciesKeys(ws: seq<Requests>, isWorkspace: Descriptor -> bool)
    ensures forall d :: d in AllDependencies(ws, isWorkspace).entries <==>
      !isWorkspace(d) && exists k :: 0 <= k < |ws| && RequestedBy(ws[k], d)
    decreases |ws|
  {
    if |ws| > 0 {
      var init, w := ws[..|ws| - 1], ws[|ws| - 1];
      AllDependenciesKeys(init, isWorkspace);
      AddWorkspaceEntries(AllDependencies(init, isWorkspace), w, isWorkspace);
      forall d ensures d in AllDependencies(ws, isWorkspace).entries <==>
        !isWorkspace(d) && exists k :: 0 <= k < |ws| && RequestedBy(ws[k], d)
      {
        if exists k :: 0 <= k < |ws| && RequestedBy(ws[k], d) {
          var k :| 0 <= k < |ws| && RequestedBy(ws[k], d);
          if k < |init| {
            assert RequestedBy(init[k], d);
          }
        }
        if exists k :: 0 <= k < |init| && RequestedBy(init[k], d) {
          var k :| 0 <= k < |init| && RequestedBy(init[k], d);
          assert RequestedBy(ws[k], d);
        }
      }
    }
  }

  /**
   * Lines 47-50 and 60-63: each collected descriptor is paired with what the
   * last workspace listing it as a regular or dev dependency has installed,
   * and with nothing when only peer dependencies name it.
   */
  lemma {:induction false} AllDependenciesInstalled(ws: seq<Requests>, isWorkspace: Descriptor -> bool)
    ensures forall d :: d in AllDependencies(ws, isWorkspace).entries ==>
      AllDependencies(ws, isWorkspace).entries[d] == Dependency(d, InstalledFor(ws, d))
    decreases |ws|
  {
    if |ws| > 0 {
      var init, w := ws[..|ws| - 1], ws[|ws| - 1];
      var m := AllDependencies(init, isWorkspace);
      AllDependenciesInstalled(init, isWorkspace);
      AllDependenciesKeys(init, isWorkspace);
      AddWorkspaceEntries(m, w, isWorkspace);
      forall d | d in AllDependencies(ws, isWorkspace).entries
        ensures AllDependencies(ws, isWorkspace).entries[d] == Dependency(d, InstalledFor(ws, d))
      {
        if !(d in w.dependencies || d in w.devDependencies) && d !in m.entries && InstalledFor(init, d).Some? {
          InstalledForListed(init, d);
        }
      }
    }
  }

  /** The descriptors of `ds` no workspace resolves, in order. */
  function Kept(ds: seq<Descriptor>, isWorkspace: Descriptor -> bool): seq<Descriptor>
    decreases |ds|
  {
    if |ds| == 0 then []
    else Kept(ds[..|ds| - 1], isWorkspace) + (if isWorkspace(ds[|ds| - 1]) then [] else [ds[|ds| - 1]])
  }

  /** The descriptors visited and kept, workspace by workspace: regular, dev, then peer dependencies. */
  function Visited(ws: seq<Requests>, isWorkspace: Descriptor -> bool): seq<Descriptor>
    decreases |ws|
  {
    if |ws| == 0 then []
    else
      var w := ws[|ws| - 1];
      Visited(ws[..|ws| - 1], isWorkspace) + Kept(w.dependencies, isWorkspace) + Kept(w.devDependencies, isWorkspace) + Kept(w.peerDependencies, isWorkspace)
  }

  /** Adding two lists in turn to an insertion-ordered set is adding their concatenation. */
  lemma {:induction false} AddAllLastConcat<T(!new)>(s: seq<T>, xs: seq<T>, ys: seq<T>)
    ensures AddAllLast(AddAllLast(s, xs), ys) == AddAllLast(s, xs + ys)
    decreases |ys|
  {
    if |ys| == 0 {
      assert xs + ys == xs;
    } else {
      var init, last := ys[..|ys| - 1], ys[|ys| - 1];
      assert ys == init + [last];
      assert xs + ys == (xs + init) + [last];
      AddAllLastConcat(s, xs, init);
      AddAllLastSnoc(AddAllLast(s, xs), init, last);
      AddAllLastSnoc(s, xs + init, last);
    }
  }

  /** Recording regular or dev dependencies appends the new ones to the key order. */
  lemma {:induction false} AddRequestedOrder(m: OMap<Descriptor, Dependency>, ds: seq<Descriptor>, installed: map<IdentHash, Descriptor>, isWorkspace: Descriptor -> bool)
    ensures AddRequested(m, ds, installed, isWorkspace).keys == AddAllLast(m.keys, Kept(ds, isWorkspace))
    decreases |ds|
  {
    if |ds| > 0 {
      var init, last := ds[..|ds| - 1], ds[|ds| - 1];
      AddRequestedOrder(m, init, installed, isWorkspace);
      var prev := AddRequested(m, init, installed, isWorkspace);
      assert Kept(ds, isWorkspace) == Kept(init, isWorkspace) + (if isWorkspace(last) then [] else [last]);
      if !isWorkspace(last) {
        AddAllLastSnoc(m.keys, Kept(init, isWorkspace), last);
        assert last in prev.entries <==> last in prev.keys;
      } else {
        assert Kept(ds, isWorkspace) == Kept(init, isWorkspace);
      }
    }
  }

  /** Recording peer dependencies appends the new ones to the key order. */
  lemma {:induction false} AddPeersOrder(m: OMap<Descriptor, Dependency>, ds: seq<Descriptor>, isWorkspace: Descriptor -> bool)
    ensures AddPeers(m, ds, isWorkspace).keys == AddAllLast(m.keys, Kept(ds, isWorkspace))
    decreases |ds|
  {
    if |ds| > 0 {
      var init, last := ds[..|ds| - 1], ds[|ds| - 1];
      AddPeersOrder(m, init, isWorkspace);
      var prev := AddPeers(m, init, isWorkspace);
      assert Kept(ds, isWorkspace) == Kept(init, isWorkspace) + (if isWorkspace(last) then [] else [last]);
      if !isWorkspace(last) {
        AddAllLastSnoc(m.keys, Kept(init, isWorkspace), last);
        assert last in prev.entries <==> last in prev.keys;
      } else {
        assert Kept(ds, isWorkspace) == Kept(init, isWorkspace);
      }
    }
  }

  /**
   * `Array.from(allDependencies.values())` (line 190) lists the collected
   * descriptors in the order they were first met: workspace by workspace,
   * regular, then dev, then peer dependencies.
   */
  lemma {:induction false} AllDependenciesOrder(ws: seq<Requests>, isWorkspace: Descriptor -> bool)
    ensures AllDependencies(ws, isWorkspace).keys == AddAllLast([], Visited(ws, isWorkspace))
    decreases |ws|
  {
    if |ws| > 0 {
      var init, w := ws[..|ws| - 1], ws[|ws| - 1];
      AllDependenciesOrder(init, isWorkspace);
      var m := AllDependencies(init, isWorkspace);
      var regular := AddRequested(m, w.dependencies, w.installed, isWorkspace);
      var dev := AddRequested(regular, w.devDependencies, w.installed, isWorkspace);
      AddRequestedOrder(m, w.dependencies, w.installed, isWorkspace);
      AddRequestedOrder(regular, w.devDependencies, w.installed, isWorkspace);
      AddPeersOrder(dev, w.peerDependencies, isWorkspace);
      var v, a, b, c := Visited(init, isWorkspace), Kept(w.dependencies, isWorkspace), Kept(w.devDependencies, isWorkspace), Kept(w.peerDependencies, isWorkspace);
      AddAllLastConcat([], v, a);
      AddAllLastConcat([], v + a, b);
      AddAllLastConcat([], v + a + b, c);
    }
  }

  // ---------------------------------------------------------------------------
  // getDescriptorManifest (lines 137-174)

  /** What the registry returned for a package: its manifest per version, in the order listed, and its dist-tags. */
  datatype IdentMetadata = IdentMetadata(versions: OMap<string, UpdatableManifest>, distTags: map<string, string>)

  const PrefetchError := "Error: Pre-fetch data before calling synchronous API"

  /** Lines 152-154: a dist-tag stands for the version it points at; a tag naming the empty text counts as absent. */
  function Untagged(meta: IdentMetadata, range: string): (r: string)
    ensures r == range || (range in meta.distTags && r == meta.distTags[range] != "")
  {
    if range in meta.distTags && meta.distTags[range] != "" then meta.distTags[range] else range
  }

  /** `range.test(text)`: the text is a version and the range admits it. */
  predicate Admits(lib: Lib, range: Range, text: string) {
    lib.validVersion(text).Some? && Satisfies(range, lib.validVersion(text).value)
  }

  /**
   * `semver.minSatisfying(texts, range)`: going through the texts in order,
   * the first admitted one, replaced by each later admitted one that is
   * strictly lower.
   */
  function MinSatisfying(lib: Lib, texts: seq<string>, range: Range): (r: Option<string>)
    ensures r.None? <==> forall t :: t in texts ==> !Admits(lib, range, t)
    ensures r.Some? ==> r.value in texts && Admits(lib, range, r.value)
    decreases |texts|
  {
    if |texts| == 0 then None
    else
      var init, last := texts[..|texts| - 1], texts[|texts| - 1];
      assert forall t :: t in texts <==> t in init || t == last by {
        assert texts == init + [last];
      }
      var m := MinSatisfying(lib, init, range);
      if !Admits(lib, range, last) then m
      else if m.None? || Compare(lib.validVersion(m.value).value, lib.validVersion(last).value) == 1 then Some(last)
      else m
  }

  /** What `minSatisfying` returns is no higher than any admitted text. */
  lemma {:induction false} MinSatisfyingLeast(lib: Lib, texts: seq<string>, range: Range)
    requires MinSatisfying(lib, texts, range).Some?
    ensures forall t :: t in texts && Admits(lib, range, t) ==>
      Le(lib.validVersion(MinSatisfying(lib, texts, range).value).value, lib.validVersion(t).value)
    decreases |texts|
  {
    var init, last := texts[..|texts| - 1], texts[|texts| - 1];
    assert forall t :: t in texts <==> t in init || t == last by {
      assert texts == init + [last];
    }
    var m := MinSatisfying(lib, init, range);
    var r := MinSatisfying(lib, texts, range).value;
    var v := lib.validVersion(r).value;
    forall t | t in texts && Admits(lib, range, t) ensures Le(v, lib.validVersion(t).value) {
      var w := lib.validVersion(t).value;
      if t == last {
        CompareAntisymmetric(v, w);
        if m.Some? {
          CompareAntisymmetric(lib.validVersion(m.value).value, w);
        }
      } else {
        MinSatisfyingLeast(lib, init, range);
        var u := lib.validVersion(m.value).value;
        if r != m.value {
          CompareAntisymmetric(u, v);
          CompareTransitive(v, u, w);
        }
      }
    }
  }

  /** The manifest of a version nobody lists (lines 168-171). */
  function NotFound(d: Descriptor): UpdatableManifest {
    UpdatableManifest(d.ident, "0.0.0-not-found", None, None)
  }

  /**
   * `getDescriptorManifest` (lines 138-174): throws unless the package's
   * metadata was fetched; otherwise the manifest of the version the
   * (dist-tag resolved) range names, else of the least version it admits,
   * else a placeholder.
   */
  function DescriptorManifest(lib: Lib, cache: map<IdentHash, IdentMetadata>, d: Descriptor): (r: Result<UpdatableManifest>)
    ensures r.Failure? <==> d.ident !in cache
    ensures r.Failure? ==> r.error == PrefetchError
    ensures r.Success? ==> r.value == NotFound(d) || exists v :: v in cache[d.ident].versions.entries && r.value == cache[d.ident].versions.entries[v]
  {
    if d.ident !in cache then Failure(PrefetchError)
    else
      var meta := cache[d.ident];
      var range := Untagged(meta, CleanRange(lib, d.range));
      if range in meta.versions.entries then Success(meta.versions.entries[range])
      else match GetRange(lib, range)
        case None => Success(NotFound(d))
        case Some(semverRange) =>
          match MinSatisfying(lib, meta.versions.keys, semverRange)
          case None => Success(NotFound(d))
          case Some(v) => Success(meta.versions.entries[v])
  }

  /**
   * Lines 149-171, the lookup order: the version the range names (after
   * dist-tags); failing that the least version the range admits; failing
   * that the placeholder.
   */
  lemma DescriptorManifestOrder(lib: Lib, cache: map<IdentHash, IdentMetadata>, d: Descriptor)
    requires d.ident in cache
    ensures
      var meta := cache[d.ident];
      var range := Untagged(meta, CleanRange(lib, d.range));
      var r := DescriptorManifest(lib, cache, d);
      && (range in meta.versions.entries ==> r == Success(meta.versions.entries[range]))
      && (range !in meta.versions.entries && GetRange(lib, range).Some? &&
          (exists t :: t in meta.versions.keys && Admits(lib, GetRange(lib, range).value, t)) ==>
            exists t :: t in meta.versions.entries && r == Success(meta.versions.entries[t]) &&
              Admits(lib, GetRange(lib, range).value, t) &&
              forall u :: u in meta.versions.keys && Admits(lib, GetRange(lib, range).value, u) ==>
                Le(lib.validVersion(t).value, lib.validVersion(u).value))
      && (range !in meta.versions.entries &&
          (GetRange(lib, range).None? || forall t :: t in meta.versions.keys ==> !Admits(lib, GetRange(lib, range).value, t)) ==>
            r == Success(NotFound(d)))
  {
    var meta := cache[d.ident];
    var range := Untagged(meta, CleanRange(lib, d.range));
    if range !in meta.versions.entries && GetRange(lib, range).Some? {
      var semverRange := GetRange(lib, range).value;
      if MinSatisfying(lib, meta.versions.keys, semverRange).Some? {
        MinSatisfyingLeast(lib, meta.versions.keys, semverRange);
      }
    }
  }

  // ---------------------------------------------------------------------------
  // Writing the update collection back (lines 207-229)

  /** Line 218: the new range the update collection holds for a dependency, if any. */
  function NewRange(collection: OMap<IdentHash, UpdateEntry>, ident: IdentHash, dependency: Descriptor): Option<string> {
    if ident in collection.entries && dependency in collection.entries[ident].updates.entries
    then Some(collection.entries[ident].updates.entries[dependency])
    else None
  }

  /** Lines 219-222: `structUtils.makeDescriptor(dependency, newRange)` when there is a new range. */
  function Updated(collection: OMap<IdentHash, UpdateEntry>, ident: IdentHash, dependency: Descriptor): (r: Descriptor)
    ensures r.ident == dependency.ident
    ensures NewRange(collection, ident, dependency).None? ==> r == dependency
    ensures NewRange(collection, ident, dependency).Some? ==> r.range == NewRange(collection, ident, dependency).value
  {
    match NewRange(collection, ident, dependency)
    case Some(range) => Descriptor(dependency.ident, range)
    case None => dependency
  }

  /** One dependency map after the loop on lines 217-223: the same packages, in the same order, each updated. */
  function Applied(deps: OMap<IdentHash, Descriptor>, collection: OMap<IdentHash, UpdateEntry>): (r: OMap<IdentHash, Descriptor>)
    ensures r.keys == deps.keys
    ensures forall i :: i in r.entries ==> r.entries[i] == Updated(collection, i, deps.entries[i])
  {
    RawMap(deps.keys, map i | i in deps.entries :: Updated(collection, i, deps.entries[i]))
  }

  /** Some dependency of the map has a new range. */
  predicate HasUpdate(deps: OMap<IdentHash, Descriptor>, collection: OMap<IdentHash, UpdateEntry>) {
    exists i :: i in deps.entries && NewRange(collection, i, deps.entries[i]).Some?
  }

  /** A map with no new range in the collection is left as it was. */
  lemma AppliedUnchanged(deps: OMap<IdentHash, Descriptor>, collection: OMap<IdentHash, UpdateEntry>)
    requires !HasUpdate(deps, collection)
    ensures Applied(deps, collection) == deps
  {
    assert Applied(deps, collection).entries == deps.entries;
  }

  /**
   * The loop on lines 217-223 over one dependency map: each package whose
   * descriptor has a new range gets the descriptor with that range, and the
   * flag records whether any did.
   */
  method ApplyTo(deps: OMap<IdentHash, Descriptor>, collection: OMap<IdentHash, UpdateEntry>) returns (r: OMap<IdentHash, Descriptor>, changed: bool)
    ensures r == Applied(deps, collection)
    ensures changed <==> HasUpdate(deps, collection)
  {
    var keys := deps.keys;
    r := deps;
    changed := false;
    for n := 0 to |keys|
      invariant r.keys == keys
      invariant forall k :: 0 <= k < |keys| ==> r.entries[keys[k]] == if k < n then Updated(collection, keys[k], deps.entries[keys[k]]) else deps.entries[keys[k]]
      invariant changed <==> exists k :: 0 <= k < n && NewRange(collection, keys[k], deps.entries[keys[k]]).Some?
    {
      var ident := keys[n];
      var dependency := r.entries[ident];
      var newRange := NewRange(collection, ident, dependency);
      if newRange.Some? {
        r := Put(r, ident, Descriptor(dependency.ident, newRange.value));
        changed := true;
      }
    }
    AppliedByIndex(deps, collection, r, changed);
  }

  /** What the loop leaves, position by position, is the updated map. */
  lemma AppliedByIndex(deps: OMap<IdentHash, Descriptor>, collection: OMap<IdentHash, UpdateEntry>, r: OMap<IdentHash, Descriptor>, changed: bool)
    requires r.keys == deps.keys
    requires forall k :: 0 <= k < |deps.keys| ==> r.entries[deps.keys[k]] == Updated(collection, deps.keys[k], deps.entries[deps.keys[k]])
    requires changed <==> exists k :: 0 <= k < |deps.keys| && NewRange(collection, deps.keys[k], deps.entries[deps.keys[k]]).Some?
    ensures r == Applied(deps, collection)
    ensures changed <==> HasUpdate(deps, collection)
  {
    forall i | i in r.entries ensures r.entries[i] == Applied(deps, collection).entries[i] {
      var k :| 0 <= k < |deps.keys| && deps.keys[k] == i;
    }
    assert r.entries == Applied(deps, collection).entries;
    if HasUpdate(deps, collection) {
      var i :| i in deps.entries && NewRange(collection, i, deps.entries[i]).Some?;
      var k :| 0 <= k < |deps.keys| && deps.keys[k] == i;
    }
  }

  /** A manifest's dependency maps, by dependency type. */
  datatype Maps = Maps(
    dependencies: OMap<IdentHash, Descriptor>,
    peerDependencies: OMap<IdentHash, Descriptor>,
    devDependencies: OMap<IdentHash, Descriptor>
  )

  /** All three maps updated. */
  function AppliedMaps(m: Maps, collection: OMap<IdentHash, UpdateEntry>): Maps {
    Maps(Applied(m.dependencies, collection), Applied(m.peerDependencies, collection), Applied(m.devDependencies, collection))
  }

  /** Some map holds a dependency with a new range. */
  predicate MapsHaveUpdate(m: Maps, collection: OMap<IdentHash, UpdateEntry>) {
    HasUpdate(m.dependencies, collection) || HasUpdate(m.peerDependencies, collection) || HasUpdate(m.devDependencies, collection)
  }

  /** Maps without any new range are left as they were. */
  lemma AppliedMapsUnchanged(m: Maps, collection: OMap<IdentHash, UpdateEntry>)
    requires !MapsHaveUpdate(m, collection)
    ensures AppliedMaps(m, collection) == m
  {
    AppliedUnchanged(m.dependencies, collection);
    AppliedUnchanged(m.peerDependencies, collection);
    AppliedUnchanged(m.devDependencies, collection);
  }

  /** The dependency maps of every workspace's manifest, in order. */
  ghost function MapsOf(workspaces: seq<Workspace>): (r: seq<Maps>)
    reads set k | 0 <= k < |workspaces| :: workspaces[k].manifest
    ensures |r| == |workspaces|
    ensures forall k :: 0 <= k < |workspaces| ==> r[k] == workspaces[k].manifest.Current()
  {
    seq(|workspaces|, k requires 0 <= k < |workspaces| reads set j | 0 <= j < |workspaces| :: workspaces[j].manifest => workspaces[k].manifest.Current())
  }

  /**
   * Lines 208-229: every workspace's manifest is updated; the flag says
   * whether any dependency had a new range. When none had, every manifest
   * is as it was and the command returns 0 without installing.
   */
  method ApplyUpdateCollection(workspaces: seq<Workspace>, collection: OMap<IdentHash, UpdateEntry>) returns (changed: bool)
    requires forall j, k :: 0 <= j < k < |workspaces| ==> workspaces[j].manifest != workspaces[k].manifest
    modifies set k | 0 <= k < |workspaces| :: workspaces[k].manifest
    ensures forall k :: 0 <= k < |workspaces| ==>
      workspaces[k].manifest.Current() == AppliedMaps(old(workspaces[k].manifest.Current()), collection)
    ensures changed <==> exists k :: 0 <= k < |workspaces| && MapsHaveUpdate(old(workspaces[k].manifest.Current()), collection)
    ensures !changed ==> forall k :: 0 <= k < |workspaces| ==> workspaces[k].manifest.Current() == old(workspaces[k].manifest.Current())
  {
    ghost var before := MapsOf(workspaces);
    ghost var now := before;
    changed := false;
    for n := 0 to |workspaces|
      invariant |now| == |workspaces|
      invariant forall k :: 0 <= k < |workspaces| ==> workspaces[k].manifest.Current() == now[k]
      invariant forall k :: 0 <= k < n ==> now[k] == AppliedMaps(before[k], collection)
      invariant forall k :: n <= k < |workspaces| ==> now[k] == before[k]
      invariant changed <==> exists k :: 0 <= k < n && MapsHaveUpdate(before[k], collection)
    {
      var any := workspaces[n].manifest.ApplyUpdates(collection);
      now := now[n := workspaces[n].manifest.Current()];
      changed := changed || any;
    }
    if !changed {
      forall k | 0 <= k < |workspaces| ensures AppliedMaps(before[k], collection) == before[k] {
        AppliedMapsUnchanged(before[k], collection);
      }
    }
  }

  // ---------------------------------------------------------------------------
  // Commit message and migrations (lines 244-297)

  /** Lines 245-249: the lines of the commit message, one per updated package. */
  function CommitLines(entries: seq<UpdateEntry>): (r: seq<string>)
    ensures |r| == 4 + |entries|
    ensures r[..4] == ["yarn ng update-interactive", "", "Update packages:", ""]
    ensures forall k :: 0 <= k < |entries| ==> r[4 + k] == "- " + entries[k].ident
  {
    ["yarn ng update-interactive", "", "Update packages:", ""] + seq(|entries|, k requires 0 <= k < |entries| => "- " + entries[k].ident)
  }

  /**
   * One element of an argument list: a text, or the `undefined` that
   * `migrate.from` is for a package with no installed version (the `[0]` of
   * an empty sorted list, page-confirm.tsx:201-206).
   */
  datatype Arg = Text(text: string) | Undefined

  function OptionalArg(s: Option<string>): (a: Arg)
    ensures a.Undefined? <==> s.None?
    ensures a.Text? ==> a.text == s.value
  {
    if s.Some? then Text(s.value) else Undefined
  }

  /**
   * Lines 289-297: the arguments of the `ng` run migrating one package: its
   * lowest installed version (`undefined` when it has none), the target
   * version only when there is one, and whether `ng` commits or may run on a
   * dirty tree.
   */
  function MigrationArgs(ident: IdentHash, migrate: Migrate, createCommits: bool): (r: seq<Arg>)
    ensures |r| == if migrate.to.Some? then 8 else 6
    ensures r[4] == Undefined <==> migrate.from.None?
  {
    [Text("update"), Text(ident), Text("--migrate-only"), Text("--from"), OptionalArg(migrate.from)]
      + (if migrate.to.Some? then [Text("--to"), Text(migrate.to.value)] else [])
      + [Text(if createCommits then "--create-commits" else "--allow-dirty")]
  }

  /**
   * A reference reader for the argument list of lines 290-296, position by
   * position: the package after `update`, the version (or `undefined`) after
   * `--from`, the version after an optional `--to`, and the final flag. The
   * command itself has no such reader (`ng` parses the arguments); it is here
   * so that the round trip below states that the list carries each datum
   * unambiguously.
   */
  function ParseMigrationArgs(args: seq<Arg>): Option<(IdentHash, Migrate, bool)> {
    if |args| < 6 || args[0] != Text("update") || !args[1].Text? || args[2] != Text("--migrate-only") || args[3] != Text("--from") then None
    else
      var from := if args[4].Text? then Some(args[4].text) else None;
      var last := args[|args| - 1];
      if last != Text("--create-commits") && last != Text("--allow-dirty") then None
      else if |args| == 6 then Some((args[1].text, Migrate(from, None), last == Text("--create-commits")))
      else if |args| == 8 && args[5] == Text("--to") && args[6].Text? then
        Some((args[1].text, Migrate(from, Some(args[6].text)), last == Text("--create-commits")))
      else None
  }

  /** The arguments carry exactly the package, the migration and the commit choice. */
  lemma MigrationArgsRoundTrip(ident: IdentHash, migrate: Migrate, createCommits: bool)
    ensures ParseMigrationArgs(MigrationArgs(ident, migrate, createCommits)) == Some((ident, migrate, createCommits))
  {
    var args := MigrationArgs(ident, migrate, createCommits);
    if migrate.to.Some? {
      assert |args| == 8 && args[5] == Text("--to") && args[6] == Text(migrate.to.value);
    } else {
      assert |args| == 6;
    }
  }

  /** Line 256: the entries with a migration. */
  function HasMigration(): UpdateEntry -> bool {
    (e: UpdateEntry) => e.migrate.Some?
  }

  /** The run of `ng` for an entry with a migration: the package and its arguments. */
  function Run(e: UpdateEntry, createCommits: bool): (IdentHash, seq<Arg>)
    requires e.migrate.Some?
  {
    (e.ident, MigrationArgs(e.ident, e.migrate.value, createCommits))
  }

  /**
   * Lines 255-257 and 266-297: one `ng` run per entry with a migration, in
   * collection order: the k-th run is that of the k-th entry the filter keeps.
   */
  function MigrationRuns(entries: seq<UpdateEntry>, createCommits: bool): (r: seq<(IdentHash, seq<Arg>)>)
    ensures var kept := Filter(entries, HasMigration());
      |r| == |kept| &&
      forall k :: 0 <= k < |r| ==> kept[k].migrate.Some? && r[k] == Run(kept[k], createCommits)
    decreases |entries|
  {
    if |entries| == 0 then []
    else
      var head, tail := entries[0], entries[1..];
      var runs := MigrationRuns(tail, createCommits);
      FilterCons(entries, HasMigration());
      if head.migrate.Some? then [Run(head, createCommits)] + runs else runs
  }

  /** Each entry with a migration has its run, and every run is one of those. */
  lemma MigrationRunsMembers(entries: seq<UpdateEntry>, createCommits: bool)
    ensures forall run :: run in MigrationRuns(entries, createCommits) <==>
      exists k :: 0 <= k < |entries| && entries[k].migrate.Some? && run == Run(entries[k], createCommits)
  {
    var r, kept := MigrationRuns(entries, createCommits), Filter(entries, HasMigration());
    forall run | run in r
      ensures exists k :: 0 <= k < |entries| && entries[k].migrate.Some? && run == Run(entries[k], createCommits)
    {
      var i :| 0 <= i < |r| && r[i] == run;
      assert kept[i] in entries;
      var k :| 0 <= k < |entries| && entries[k] == kept[i];
    }
    forall k | 0 <= k < |entries| && entries[k].migrate.Some?
      ensures Run(entries[k], createCommits) in r
    {
      assert entries[k] in kept;
      var i :| 0 <= i < |kept| && kept[i] == entries[k];
      assert r[i] == Run(entries[k], createCommits);
    }
  }
}
