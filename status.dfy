/**
 * Which packages are selected, included or required on the update screen
 * (`ui/app/state/status.ts`): a breadth-first walk from the selected packages
 * along package-group inclusions and peer requirements, then the
 * classifications and ranges read from its result.
 */
module Status {
  import opened Wrappers
  import opened Seqs
  import opened Semver
  import opened Structs
  import opened Externals
  import opened OrderedMaps
  import opened Ranges
  import opened AppStates
  import opened Selection

  /** One entry of `includedBy` or `requiredBy`: the package that demands, and what it demands. */
  datatype Requester = Requester(ident: IdentHash, range: Demand)

  type Requesters = map<IdentHash, seq<Requester>>

  /** What `getItemStatus` computes once per `itemMap`. */
  datatype Statuses = Statuses(includedBy: Requesters, requiredBy: Requesters)

  /** `q` is listed among the requesters of `t`. */
  predicate Records(m: Requesters, t: IdentHash, q: Requester) {
    t in m && q in m[t]
  }

  /** Every list the walk builds holds at least one requester. */
  predicate NonEmptyLists(m: Requesters) {
    forall t :: t in m ==> |m[t]| > 0
  }

  /** `getArrayWithDefault(m, t).push(q)` */
  function Append(m: Requesters, t: IdentHash, q: Requester): (r: Requesters)
    ensures forall u, x :: Records(r, u, x) <==> Records(m, u, x) || (u == t && x == q)
    ensures r.Keys == m.Keys + {t}
    ensures NonEmptyLists(m) ==> NonEmptyLists(r)
  {
    m[t := (if t in m then m[t] else []) + [q]]
  }

  /** `itemMap.get(i)?.meta` */
  function MetaOf(itemMap: OMap<IdentHash, UpdatableItem>, i: IdentHash): Option<ItemMeta> {
    if i in itemMap.entries then itemMap.entries[i].meta else None
  }

  /** `itemMap.get(i).selectedRange != null`, false for a package that is not listed. */
  predicate SelectedIn(itemMap: OMap<IdentHash, UpdatableItem>, i: IdentHash) {
    i in itemMap.entries && itemMap.entries[i].selectedRange.IsSet()
  }

  function Selector(itemMap: OMap<IdentHash, UpdatableItem>): IdentHash -> bool {
    i => SelectedIn(itemMap, i)
  }

  // ---------------------------------------------------------------------------
  // Peer requirements that are already met (lines 67-86)

  /**
   * One requested range already complies with a parsed peer requirement: it
   * parses, and it is a version the requirement accepts or a range the
   * intersection with the requirement leaves as it is.
   */
  predicate Complies(lib: Lib, requirement: Range, existing: Option<Range>) {
    && existing.Some?
    && match lib.validVersion(existing.value.raw)
       case Some(v) => Satisfies(requirement, v)
       case None =>
         var both := GetIntersection(lib, existing.value, requirement);
         both.Some? && FormatRange(existing.value) == FormatRange(both.value)
  }

  /** A peer requirement the walk ignores: a parsed range every requested range of the target complies with. */
  predicate Ignored(lib: Lib, itemMap: OMap<IdentHash, UpdatableItem>, t: IdentHash, demand: Demand) {
    && demand.RangeDemand?
    && t in itemMap.entries
    && forall d :: d in itemMap.entries[t].requestedDescriptors ==> Complies(lib, demand.range, GetRange(lib, d.range))
  }

  /** A parsed peer requirement, off the path, on a package not listed: line 69 reads a field of `undefined`. */
  predicate MissingPeer(itemMap: OMap<IdentHash, UpdatableItem>, path: set<IdentHash>, p: (IdentHash, Demand)) {
    p.0 !in path && p.1.RangeDemand? && p.0 !in itemMap.entries
  }

  /** The test of lines 67-86, as the walk applies it to a peer dependency and its range. */
  type Ignore = (IdentHash, Demand) -> bool

  function IgnoreTest(lib: Lib, itemMap: OMap<IdentHash, UpdatableItem>): Ignore {
    (t, d) => Ignored(lib, itemMap, t, d)
  }

  const MissingPeerError := "TypeError: Cannot read properties of undefined (reading 'requestedDescriptors')"

  // ---------------------------------------------------------------------------
  // The edges of the walk

  /** Expanding `j`, reached along `path`, records `j` as an includer of `t`. */
  predicate IncludeEdge(itemMap: OMap<IdentHash, UpdatableItem>, j: IdentHash, path: set<IdentHash>, t: IdentHash, d: Demand) {
    MetaOf(itemMap, j).Some? && (t, d) in MetaOf(itemMap, j).value.includedPackages && t !in path
  }

  /** Expanding `j`, reached along `path`, records `j` as a requirer of `t`. */
  predicate PeerEdge(itemMap: OMap<IdentHash, UpdatableItem>, ignored: Ignore, j: IdentHash, path: set<IdentHash>, t: IdentHash, d: Demand) {
    && MetaOf(itemMap, j).Some? && (t, d) in MetaOf(itemMap, j).value.peerDependencies && t !in path
    && !ignored(t, d)
  }

  /** The packages that expanding `j` along `path` puts on the queue. */
  function Pushes(itemMap: OMap<IdentHash, UpdatableItem>, ignored: Ignore, j: IdentHash, path: set<IdentHash>): set<IdentHash> {
    if MetaOf(itemMap, j).None? then {}
    else
      var meta := MetaOf(itemMap, j).value;
      (set p | p in meta.includedPackages && p.0 !in path :: p.0)
      + (set p | p in meta.peerDependencies && p.0 !in path && !ignored(p.0, p.1) :: p.0)
  }

  /** Every package the walk can ever meet: the listed ones and the targets of their edges. */
  ghost function Universe(itemMap: OMap<IdentHash, UpdatableItem>): set<IdentHash> {
    itemMap.entries.Keys
    + (set i, p | i in itemMap.entries && itemMap.entries[i].meta.Some?
                  && p in itemMap.entries[i].meta.value.includedPackages + itemMap.entries[i].meta.value.peerDependencies :: p.0)
  }

  // ---------------------------------------------------------------------------
  // Expanding one package (lines 51-92)

  /** Lines 51-59: each package-group member off the path gains `cur` as an includer and is queued. */
  method RecordInclusions(cur: IdentHash, path: set<IdentHash>, included: seq<(IdentHash, Demand)>, includedBy: Requesters)
    returns (includedBy': Requesters, pushed: seq<IdentHash>)
    ensures InclusionsRecorded(includedBy, includedBy', cur, path, included, pushed)
  {
    includedBy', pushed := includedBy, [];
    for k := 0 to |included|
      invariant forall t, q :: Records(includedBy', t, q) <==>
        Records(includedBy, t, q) || (q.ident == cur && (t, q.range) in included[..k] && t !in path)
      invariant forall t :: t in pushed <==> exists p :: p in included[..k] && p.0 == t && t !in path
      invariant includedBy'.Keys == includedBy.Keys + (set t | t in pushed)
      invariant NonEmptyLists(includedBy) ==> NonEmptyLists(includedBy')
    {
      assert included[..k + 1] == included[..k] + [included[k]];
      var (t, range) := included[k];
      if t !in path {
        includedBy' := Append(includedBy', t, Requester(cur, range));
        pushed := pushed + [t];
      }
    }
    assert included[..|included|] == included;
  }

  /**
   * Lines 61-92: each peer dependency off the path that is not already met
   * gains `cur` as a requirer and is queued; a parsed requirement on a
   * package that is not listed throws.
   */
  method RecordRequirements(itemMap: OMap<IdentHash, UpdatableItem>, ignored: Ignore, cur: IdentHash, path: set<IdentHash>,
                            peers: seq<(IdentHash, Demand)>, requiredBy: Requesters)
    returns (r: Result<(Requesters, seq<IdentHash>)>)
    ensures r.Failure? <==> exists p :: p in peers && MissingPeer(itemMap, path, p)
    ensures r.Success? ==> RequirementsRecorded(ignored, requiredBy, r.value.0, cur, path, peers, r.value.1)
  {
    var requiredBy', pushed := requiredBy, [];
    for k := 0 to |peers|
      invariant forall p :: p in peers[..k] ==> !MissingPeer(itemMap, path, p)
      invariant forall t, q :: Records(requiredBy', t, q) <==>
        Records(requiredBy, t, q) || (q.ident == cur && (t, q.range) in peers[..k] && t !in path && !ignored(t, q.range))
      invariant forall t :: t in pushed <==> exists p :: p in peers[..k] && p.0 == t && t !in path && !ignored(t, p.1)
      invariant requiredBy'.Keys == requiredBy.Keys + (set t | t in pushed)
      invariant NonEmptyLists(requiredBy) ==> NonEmptyLists(requiredBy')
    {
      assert peers[..k + 1] == peers[..k] + [peers[k]];
      var (t, range) := peers[k];
      if t !in path {
        if range.RangeDemand? && t !in itemMap.entries {
          assert MissingPeer(itemMap, path, peers[k]);
          return Failure(MissingPeerError);
        }
        if !ignored(t, range) {
          pushed := pushed + [t];
          requiredBy' := Append(requiredBy', t, Requester(cur, range));
        }
      }
    }
    assert peers[..|peers|] == peers;
    return Success((requiredBy', pushed));
  }

  // ---------------------------------------------------------------------------
  // The walk (lines 29-94)

  /** The queue entry `e` is a seed or was pushed by expanding `from`. */
  ghost predicate Queued(itemMap: OMap<IdentHash, UpdatableItem>, ignored: Ignore, paths: map<IdentHash, set<IdentHash>>,
                         e: (IdentHash, set<IdentHash>), from: Option<IdentHash>) {
    match from
    case None => e.1 == {} && SelectedIn(itemMap, e.0)
    case Some(j) => j in paths && e.1 == paths[j] + {j} && e.0 in Pushes(itemMap, ignored, j, paths[j])
  }

  /**
   * The path each reached package was expanded with leads back, one pushing
   * edge at a time, to a selected package, which is expanded with the empty path.
   */
  ghost predicate PathsTraced(itemMap: OMap<IdentHash, UpdatableItem>, ignored: Ignore, paths: map<IdentHash, set<IdentHash>>,
                              via: map<IdentHash, IdentHash>) {
    && via.Keys <= paths.Keys
    && forall i :: i in paths ==>
         if i in via then
           via[i] in paths && paths[i] == paths[via[i]] + {via[i]} && i in Pushes(itemMap, ignored, via[i], paths[via[i]])
         else paths[i] == {} && SelectedIn(itemMap, i)
  }

  /** The recorded requesters are exactly the edges of the expanded packages. */
  ghost predicate EdgesRecorded(itemMap: OMap<IdentHash, UpdatableItem>, ignored: Ignore, paths: map<IdentHash, set<IdentHash>>, st: Statuses) {
    && (forall t, q :: Records(st.includedBy, t, q) <==>
          q.ident in paths && IncludeEdge(itemMap, q.ident, paths[q.ident], t, q.range))
    && (forall t, q :: Records(st.requiredBy, t, q) <==>
          q.ident in paths && PeerEdge(itemMap, ignored, q.ident, paths[q.ident], t, q.range))
  }

  /** No expanded package has a parsed peer requirement, off its path, on a package that is not listed. */
  ghost predicate PeersListed(itemMap: OMap<IdentHash, UpdatableItem>, paths: map<IdentHash, set<IdentHash>>) {
    forall j, p :: j in paths && MetaOf(itemMap, j).Some? && p in MetaOf(itemMap, j).value.peerDependencies ==>
      !MissingPeer(itemMap, paths[j], p)
  }

  /**
   * The walk is complete: it started from every selected package, each
   * reached package was expanded once with the path it was first reached by,
   * and the requesters recorded are the edges of those expansions.
   */
  ghost predicate Explored(itemMap: OMap<IdentHash, UpdatableItem>, ignored: Ignore, paths: map<IdentHash, set<IdentHash>>,
                           via: map<IdentHash, IdentHash>, st: Statuses) {
    && (forall i :: SelectedIn(itemMap, i) ==> i in paths)
    && PathsTraced(itemMap, ignored, paths, via)
    && EdgesRecorded(itemMap, ignored, paths, st)
    && (forall t :: t in st.includedBy || t in st.requiredBy ==> t in paths)
    && NonEmptyLists(st.includedBy) && NonEmptyLists(st.requiredBy)
    && PeersListed(itemMap, paths)
  }

  /** The packages still on the queue. */
  function Waiting(queue: seq<(IdentHash, set<IdentHash>)>): set<IdentHash> {
    set k | 0 <= k < |queue| :: queue[k].0
  }

  /** The entries `queue.push([t, path])` adds for each pushed `t`, in order. */
  function Tagged(pushed: seq<IdentHash>, path: set<IdentHash>): (r: seq<(IdentHash, set<IdentHash>)>)
    ensures |r| == |pushed| && forall k :: 0 <= k < |r| ==> r[k] == (pushed[k], path)
  {
    seq(|pushed|, k requires 0 <= k < |pushed| => (pushed[k], path))
  }

  /** Everything the queue says holds of the walk so far, with `from` naming the package that pushed each entry. */
  ghost predicate Walk(itemMap: OMap<IdentHash, UpdatableItem>, ignored: Ignore, universe: set<IdentHash>,
                       queue: seq<(IdentHash, set<IdentHash>)>, from: seq<Option<IdentHash>>,
                       paths: map<IdentHash, set<IdentHash>>, via: map<IdentHash, IdentHash>, st: Statuses) {
    && QueueFrom(itemMap, ignored, universe, queue, from, paths)
    && paths.Keys <= universe
    && PathsTraced(itemMap, ignored, paths, via)
    && EdgesRecorded(itemMap, ignored, paths, st)
    && NonEmptyLists(st.includedBy) && NonEmptyLists(st.requiredBy)
    && PeersListed(itemMap, paths)
    && Covered(itemMap, queue, paths, st)
  }

  ghost predicate QueueFrom(itemMap: OMap<IdentHash, UpdatableItem>, ignored: Ignore, universe: set<IdentHash>,
                            queue: seq<(IdentHash, set<IdentHash>)>, from: seq<Option<IdentHash>>, paths: map<IdentHash, set<IdentHash>>) {
    |from| == |queue| && forall k :: 0 <= k < |queue| ==> Queued(itemMap, ignored, paths, queue[k], from[k]) && queue[k].0 in universe
  }

  /** Every selected package and every package with a requester is expanded or still queued. */
  ghost predicate Covered(itemMap: OMap<IdentHash, UpdatableItem>, queue: seq<(IdentHash, set<IdentHash>)>,
                          paths: map<IdentHash, set<IdentHash>>, st: Statuses) {
    forall t :: SelectedIn(itemMap, t) || t in st.includedBy || t in st.requiredBy ==> t in paths || t in Waiting(queue)
  }

  lemma WaitingPop(queue: seq<(IdentHash, set<IdentHash>)>)
    requires |queue| > 0
    ensures Waiting(queue) == Waiting(queue[1..]) + {queue[0].0}
  {
    assert forall k :: 0 < k < |queue| ==> queue[k] == queue[1..][k - 1];
  }

  lemma WaitingPush(queue: seq<(IdentHash, set<IdentHash>)>, pushed: seq<IdentHash>, path: set<IdentHash>)
    ensures Waiting(queue + Tagged(pushed, path)) == Waiting(queue) + (set t | t in pushed)
  {
    var all := queue + Tagged(pushed, path);
    assert forall k :: 0 <= k < |queue| ==> all[k] == queue[k];
    assert forall k :: 0 <= k < |pushed| ==> all[|queue| + k].0 == pushed[k];
  }

  /** A package already expanded leaves the queue and nothing else changes (line 41). */
  lemma WalkSkip(itemMap: OMap<IdentHash, UpdatableItem>, ignored: Ignore, universe: set<IdentHash>,
                 queue: seq<(IdentHash, set<IdentHash>)>, from: seq<Option<IdentHash>>,
                 paths: map<IdentHash, set<IdentHash>>, via: map<IdentHash, IdentHash>, st: Statuses)
    requires Walk(itemMap, ignored, universe, queue, from, paths, via, st)
    requires |queue| > 0 && queue[0].0 in paths
    ensures Walk(itemMap, ignored, universe, queue[1..], from[1..], paths, via, st)
  {
    WaitingPop(queue);
  }

  /** The queue after expanding its first entry, `cur` along `path`, which pushes `pushed`. */
  lemma ExpandQueue(itemMap: OMap<IdentHash, UpdatableItem>, ignored: Ignore, universe: set<IdentHash>,
                    queue: seq<(IdentHash, set<IdentHash>)>, from: seq<Option<IdentHash>>,
                    paths: map<IdentHash, set<IdentHash>>, cur: IdentHash, path: set<IdentHash>, pushed: seq<IdentHash>)
    requires QueueFrom(itemMap, ignored, universe, queue, from, paths)
    requires |queue| > 0 && queue[0] == (cur, path) && cur !in paths
    requires forall t :: t in pushed ==> t in Pushes(itemMap, ignored, cur, path) && t in universe
    ensures QueueFrom(itemMap, ignored, universe, queue[1..] + Tagged(pushed, path + {cur}),
                      from[1..] + Pushers(|pushed|, Some(cur)), paths[cur := path])
  {
    var paths' := paths[cur := path];
    var queue' := queue[1..] + Tagged(pushed, path + {cur});
    var from' := from[1..] + Pushers(|pushed|, Some(cur));
    forall k | 0 <= k < |queue'|
      ensures Queued(itemMap, ignored, paths', queue'[k], from'[k]) && queue'[k].0 in universe
    {
      if k < |queue| - 1 {
        assert queue'[k] == queue[k + 1] && from'[k] == from[k + 1];
        assert Queued(itemMap, ignored, paths, queue[k + 1], from[k + 1]);
      } else {
        assert queue'[k] == (pushed[k - |queue| + 1], path + {cur}) && from'[k] == Some(cur);
      }
    }
  }

  /** The expanded package's path extends the path of the package that pushed it. */
  lemma ExpandPaths(itemMap: OMap<IdentHash, UpdatableItem>, ignored: Ignore, paths: map<IdentHash, set<IdentHash>>,
                    via: map<IdentHash, IdentHash>, cur: IdentHash, path: set<IdentHash>, origin: Option<IdentHash>)
    requires PathsTraced(itemMap, ignored, paths, via) && cur !in paths
    requires Queued(itemMap, ignored, paths, (cur, path), origin)
    ensures PathsTraced(itemMap, ignored, paths[cur := path], if origin.Some? then via[cur := origin.value] else via)
  {
  }

  /** Expanding `cur` records exactly its edges. */
  lemma ExpandEdges(itemMap: OMap<IdentHash, UpdatableItem>, ignored: Ignore, paths: map<IdentHash, set<IdentHash>>,
                    cur: IdentHash, path: set<IdentHash>, st: Statuses, st': Statuses)
    requires EdgesRecorded(itemMap, ignored, paths, st) && cur !in paths
    requires forall t, q :: Records(st'.includedBy, t, q) <==>
      Records(st.includedBy, t, q) || (q.ident == cur && IncludeEdge(itemMap, cur, path, t, q.range))
    requires forall t, q :: Records(st'.requiredBy, t, q) <==>
      Records(st.requiredBy, t, q) || (q.ident == cur && PeerEdge(itemMap, ignored, cur, path, t, q.range))
    ensures EdgesRecorded(itemMap, ignored, paths[cur := path], st')
  {
  }

  /** Packages with new requesters are queued. */
  lemma ExpandCovered(itemMap: OMap<IdentHash, UpdatableItem>, queue: seq<(IdentHash, set<IdentHash>)>,
                      paths: map<IdentHash, set<IdentHash>>, st: Statuses, cur: IdentHash, path: set<IdentHash>,
                      pushed: seq<IdentHash>, st': Statuses)
    requires Covered(itemMap, queue, paths, st) && |queue| > 0 && queue[0].0 == cur
    requires st'.includedBy.Keys + st'.requiredBy.Keys == st.includedBy.Keys + st.requiredBy.Keys + (set t | t in pushed)
    ensures Covered(itemMap, queue[1..] + Tagged(pushed, path + {cur}), paths[cur := path], st')
  {
    WaitingPop(queue);
    WaitingPush(queue[1..], pushed, path + {cur});
  }

  /** The pushed members of `cur`'s package group are among its pushes and in the universe. */
  lemma PushedIncluded(itemMap: OMap<IdentHash, UpdatableItem>, ignored: Ignore, cur: IdentHash, path: set<IdentHash>, pushed: seq<IdentHash>)
    requires MetaOf(itemMap, cur).Some?
    requires forall t :: t in pushed <==> exists p :: p in MetaOf(itemMap, cur).value.includedPackages && p.0 == t && t !in path
    ensures forall t :: t in pushed ==> t in Pushes(itemMap, ignored, cur, path) && t in Universe(itemMap)
  {
    var meta := MetaOf(itemMap, cur).value;
    forall t | t in pushed ensures t in Pushes(itemMap, ignored, cur, path) && t in Universe(itemMap) {
      var p :| p in meta.includedPackages && p.0 == t && t !in path;
      assert p in meta.includedPackages + meta.peerDependencies;
    }
  }

  /** The pushed peer dependencies of `cur` are among its pushes and in the universe. */
  lemma PushedRequired(itemMap: OMap<IdentHash, UpdatableItem>, ignored: Ignore, cur: IdentHash, path: set<IdentHash>, pushed: seq<IdentHash>)
    requires MetaOf(itemMap, cur).Some?
    requires forall t :: t in pushed <==>
      exists p :: p in MetaOf(itemMap, cur).value.peerDependencies && p.0 == t && t !in path && !ignored(t, p.1)
    ensures forall t :: t in pushed ==> t in Pushes(itemMap, ignored, cur, path) && t in Universe(itemMap)
  {
    var meta := MetaOf(itemMap, cur).value;
    forall t | t in pushed ensures t in Pushes(itemMap, ignored, cur, path) && t in Universe(itemMap) {
      var p :| p in meta.peerDependencies && p.0 == t && t !in path && !ignored(t, p.1);
      assert p in meta.includedPackages + meta.peerDependencies;
    }
  }

  /** The seeds are the selected packages, queued with the empty path. */
  lemma SeedsQueued(itemMap: OMap<IdentHash, UpdatableItem>, ignored: Ignore, universe: set<IdentHash>, seeds: seq<IdentHash>)
    requires seeds == Filter(itemMap.keys, Selector(itemMap)) && itemMap.entries.Keys <= universe
    ensures QueueFrom(itemMap, ignored, universe, Tagged(seeds, {}), Pushers(|seeds|, None), map[])
  {
    var queue := Tagged(seeds, {});
    forall k | 0 <= k < |seeds| ensures SelectedIn(itemMap, queue[k].0) && queue[k].0 in universe {
      assert seeds[k] in seeds;
    }
  }

  lemma SeedsCovered(itemMap: OMap<IdentHash, UpdatableItem>, seeds: seq<IdentHash>)
    requires seeds == Filter(itemMap.keys, Selector(itemMap))
    ensures Covered(itemMap, Tagged(seeds, {}), map[], Statuses(map[], map[]))
  {
    var queue := Tagged(seeds, {});
    forall i | SelectedIn(itemMap, i) ensures i in Waiting(queue) {
      assert i in seeds;
      var k :| 0 <= k < |seeds| && seeds[k] == i;
      assert queue[k].0 == i;
    }
  }

  /** The walk before its loop: only the selected packages are queued, as seeds. */
  lemma WalkStart(itemMap: OMap<IdentHash, UpdatableItem>, ignored: Ignore, universe: set<IdentHash>, seeds: seq<IdentHash>)
    requires seeds == Filter(itemMap.keys, Selector(itemMap)) && itemMap.entries.Keys <= universe
    ensures Walk(itemMap, ignored, universe, Tagged(seeds, {}), Pushers(|seeds|, None), map[], map[], Statuses(map[], map[]))
  {
    SeedsQueued(itemMap, ignored, universe, seeds);
    SeedsCovered(itemMap, seeds);
  }

  /** Expanding the first queued entry, `cur` along `path`, when it has no metadata: it becomes reached and pushes nothing. */
  lemma WalkBare(itemMap: OMap<IdentHash, UpdatableItem>, ignored: Ignore, universe: set<IdentHash>,
                 queue: seq<(IdentHash, set<IdentHash>)>, from: seq<Option<IdentHash>>,
                 paths: map<IdentHash, set<IdentHash>>, via: map<IdentHash, IdentHash>, st: Statuses,
                 cur: IdentHash, path: set<IdentHash>)
    requires Walk(itemMap, ignored, universe, queue, from, paths, via, st)
    requires |queue| > 0 && queue[0] == (cur, path) && cur !in paths && MetaOf(itemMap, cur).None?
    ensures Walk(itemMap, ignored, universe, queue[1..] + Tagged([], path + {cur}), from[1..] + Pushers(0, Some(cur)),
                 paths[cur := path], if from[0].Some? then via[cur := from[0].value] else via, st)
  {
    assert Queued(itemMap, ignored, paths, queue[0], from[0]);
    ExpandPaths(itemMap, ignored, paths, via, cur, path, from[0]);
    ExpandEdges(itemMap, ignored, paths, cur, path, st, st);
    ExpandCovered(itemMap, queue, paths, st, cur, path, [], st);
    ExpandQueue(itemMap, ignored, universe, queue, from, paths, cur, path, []);
  }

  /** Expanding `cur` along `path` adds it as an includer of each member of `included` off the path, and pushes those. */
  ghost predicate InclusionsRecorded(m: Requesters, m': Requesters, cur: IdentHash, path: set<IdentHash>,
                                     included: seq<(IdentHash, Demand)>, pushed: seq<IdentHash>) {
    && (forall t, q :: Records(m', t, q) <==> Records(m, t, q) || (q.ident == cur && (t, q.range) in included && t !in path))
    && (forall t :: t in pushed <==> exists p :: p in included && p.0 == t && t !in path)
    && m'.Keys == m.Keys + (set t | t in pushed)
    && (NonEmptyLists(m) ==> NonEmptyLists(m'))
  }

  /** Expanding `cur` along `path` adds it as a requirer of each peer off the path that is not ignored, and pushes those. */
  ghost predicate RequirementsRecorded(ignored: Ignore, m: Requesters, m': Requesters, cur: IdentHash, path: set<IdentHash>,
                                       peers: seq<(IdentHash, Demand)>, pushed: seq<IdentHash>) {
    && (forall t, q :: Records(m', t, q) <==>
          Records(m, t, q) || (q.ident == cur && (t, q.range) in peers && t !in path && !ignored(t, q.range)))
    && (forall t :: t in pushed <==> exists p :: p in peers && p.0 == t && t !in path && !ignored(t, p.1))
    && m'.Keys == m.Keys + (set t | t in pushed)
    && (NonEmptyLists(m) ==> NonEmptyLists(m'))
  }

  /** The facts about expanding `cur`, which has metadata, that the walk's invariant needs. */
  ghost predicate Expanded(itemMap: OMap<IdentHash, UpdatableItem>, ignored: Ignore, st: Statuses, st': Statuses,
                           cur: IdentHash, path: set<IdentHash>, pushedIncluded: seq<IdentHash>, pushedRequired: seq<IdentHash>) {
    && MetaOf(itemMap, cur).Some?
    && InclusionsRecorded(st.includedBy, st'.includedBy, cur, path, MetaOf(itemMap, cur).value.includedPackages, pushedIncluded)
    && RequirementsRecorded(ignored, st.requiredBy, st'.requiredBy, cur, path, MetaOf(itemMap, cur).value.peerDependencies, pushedRequired)
    && (forall p :: p in MetaOf(itemMap, cur).value.peerDependencies ==> !MissingPeer(itemMap, path, p))
  }

  lemma MetaEdges(itemMap: OMap<IdentHash, UpdatableItem>, ignored: Ignore, paths: map<IdentHash, set<IdentHash>>,
                  cur: IdentHash, path: set<IdentHash>, st: Statuses, st': Statuses,
                  pushedIncluded: seq<IdentHash>, pushedRequired: seq<IdentHash>)
    requires EdgesRecorded(itemMap, ignored, paths, st) && cur !in paths
    requires Expanded(itemMap, ignored, st, st', cur, path, pushedIncluded, pushedRequired)
    ensures EdgesRecorded(itemMap, ignored, paths[cur := path], st')
  {
    ExpandEdges(itemMap, ignored, paths, cur, path, st, st');
  }

  lemma MetaCovered(itemMap: OMap<IdentHash, UpdatableItem>, ignored: Ignore, queue: seq<(IdentHash, set<IdentHash>)>,
                    paths: map<IdentHash, set<IdentHash>>, cur: IdentHash, path: set<IdentHash>, st: Statuses, st': Statuses,
                    pushedIncluded: seq<IdentHash>, pushedRequired: seq<IdentHash>)
    requires Covered(itemMap, queue, paths, st) && |queue| > 0 && queue[0].0 == cur
    requires Expanded(itemMap, ignored, st, st', cur, path, pushedIncluded, pushedRequired)
    ensures Covered(itemMap, queue[1..] + Tagged(pushedIncluded + pushedRequired, path + {cur}), paths[cur := path], st')
  {
    var pushed := pushedIncluded + pushedRequired;
    assert (set t | t in pushed) == (set t | t in pushedIncluded) + (set t | t in pushedRequired);
    ExpandCovered(itemMap, queue, paths, st, cur, path, pushed, st');
  }

  lemma MetaQueue(itemMap: OMap<IdentHash, UpdatableItem>, ignored: Ignore, queue: seq<(IdentHash, set<IdentHash>)>, from: seq<Option<IdentHash>>,
                  paths: map<IdentHash, set<IdentHash>>, cur: IdentHash, path: set<IdentHash>, st: Statuses, st': Statuses,
                  pushedIncluded: seq<IdentHash>, pushedRequired: seq<IdentHash>)
    requires QueueFrom(itemMap, ignored, Universe(itemMap), queue, from, paths)
    requires |queue| > 0 && queue[0] == (cur, path) && cur !in paths
    requires Expanded(itemMap, ignored, st, st', cur, path, pushedIncluded, pushedRequired)
    ensures var pushed := pushedIncluded + pushedRequired;
      QueueFrom(itemMap, ignored, Universe(itemMap), queue[1..] + Tagged(pushed, path + {cur}), from[1..] + Pushers(|pushed|, Some(cur)),
                paths[cur := path])
  {
    PushedIncluded(itemMap, ignored, cur, path, pushedIncluded);
    PushedRequired(itemMap, ignored, cur, path, pushedRequired);
    ExpandQueue(itemMap, ignored, Universe(itemMap), queue, from, paths, cur, path, pushedIncluded + pushedRequired);
  }

  /** Expanding the first queued entry, `cur` along `path`, with metadata: its edges are recorded and their targets queued. */
  lemma WalkMeta(itemMap: OMap<IdentHash, UpdatableItem>, ignored: Ignore, queue: seq<(IdentHash, set<IdentHash>)>, from: seq<Option<IdentHash>>,
                 paths: map<IdentHash, set<IdentHash>>, via: map<IdentHash, IdentHash>, st: Statuses,
                 cur: IdentHash, path: set<IdentHash>, pushedIncluded: seq<IdentHash>, pushedRequired: seq<IdentHash>, st': Statuses)
    requires Walk(itemMap, ignored, Universe(itemMap), queue, from, paths, via, st)
    requires |queue| > 0 && queue[0] == (cur, path) && cur !in paths
    requires Expanded(itemMap, ignored, st, st', cur, path, pushedIncluded, pushedRequired)
    ensures var pushed := pushedIncluded + pushedRequired;
      Walk(itemMap, ignored, Universe(itemMap), queue[1..] + Tagged(pushed, path + {cur}), from[1..] + Pushers(|pushed|, Some(cur)),
           paths[cur := path], if from[0].Some? then via[cur := from[0].value] else via, st')
  {
    assert Queued(itemMap, ignored, paths, queue[0], from[0]);
    ExpandPaths(itemMap, ignored, paths, via, cur, path, from[0]);
    MetaEdges(itemMap, ignored, paths, cur, path, st, st', pushedIncluded, pushedRequired);
    MetaCovered(itemMap, ignored, queue, paths, cur, path, st, st', pushedIncluded, pushedRequired);
    MetaQueue(itemMap, ignored, queue, from, paths, cur, path, st, st', pushedIncluded, pushedRequired);
  }

  /** With the queue empty, the walk is complete. */
  lemma WalkDone(itemMap: OMap<IdentHash, UpdatableItem>, ignored: Ignore, universe: set<IdentHash>,
                 from: seq<Option<IdentHash>>, paths: map<IdentHash, set<IdentHash>>, via: map<IdentHash, IdentHash>, st: Statuses)
    requires Walk(itemMap, ignored, universe, [], from, paths, via, st)
    ensures Explored(itemMap, ignored, paths, via, st)
  {
    assert Waiting([]) == {};
  }

  /** The first queued package is not reached yet: reaching it brings the walk closer to its end. */
  lemma WalkCloser(universe: set<IdentHash>, seen: set<IdentHash>, cur: IdentHash)
    requires cur in universe && cur !in seen
    ensures |universe - (seen + {cur})| < |universe - seen|
  {
    assert universe - (seen + {cur}) == (universe - seen) - {cur};
  }

  lemma KeysAdd(paths: map<IdentHash, set<IdentHash>>, k: IdentHash, v: set<IdentHash>)
    ensures paths[k := v].Keys == paths.Keys + {k}
  {
  }

  /**
   * The throw of line 69 as the walk meets it: a package reached along a path
   * that traces back to a selected package has a parsed peer requirement,
   * off that path, on a package that is not listed.
   */
  ghost predicate ThrowsOnWalk(itemMap: OMap<IdentHash, UpdatableItem>, ignored: Ignore, paths: map<IdentHash, set<IdentHash>>,
                               via: map<IdentHash, IdentHash>) {
    && PathsTraced(itemMap, ignored, paths, via)
    && exists j, p :: j in paths && MetaOf(itemMap, j).Some? && p in MetaOf(itemMap, j).value.peerDependencies &&
                      MissingPeer(itemMap, paths[j], p)
  }

  /** Expanding the first queued entry, `cur` along `path`, meets a missing peer: the walk throws there. */
  lemma ThrownAt(itemMap: OMap<IdentHash, UpdatableItem>, ignored: Ignore, queue: seq<(IdentHash, set<IdentHash>)>,
                 from: seq<Option<IdentHash>>, paths: map<IdentHash, set<IdentHash>>, via: map<IdentHash, IdentHash>,
                 cur: IdentHash, path: set<IdentHash>)
    requires |from| == |queue| && |queue| > 0 && queue[0] == (cur, path) && cur !in paths
    requires PathsTraced(itemMap, ignored, paths, via) && Queued(itemMap, ignored, paths, queue[0], from[0])
    requires MetaOf(itemMap, cur).Some? && exists p :: p in MetaOf(itemMap, cur).value.peerDependencies && MissingPeer(itemMap, path, p)
    ensures ThrowsOnWalk(itemMap, ignored, paths[cur := path], if from[0].Some? then via[cur := from[0].value] else via)
  {
    ExpandPaths(itemMap, ignored, paths, via, cur, path, from[0]);
    var p :| p in MetaOf(itemMap, cur).value.peerDependencies && MissingPeer(itemMap, path, p);
    assert cur in paths[cur := path] && paths[cur := path][cur] == path;
  }

  /**
   * Lines 51-92 for `cur`, which has metadata, reached along `path`: its
   * edges are recorded and their targets returned in the order they are queued.
   */
  method Expand(itemMap: OMap<IdentHash, UpdatableItem>, ignored: Ignore, cur: IdentHash, path: set<IdentHash>,
                includedBy: Requesters, requiredBy: Requesters)
    returns (r: Result<(Requesters, Requesters, seq<IdentHash>)>, ghost pushedIncluded: seq<IdentHash>, ghost pushedRequired: seq<IdentHash>)
    requires MetaOf(itemMap, cur).Some?
    ensures r.Failure? <==> exists p :: p in MetaOf(itemMap, cur).value.peerDependencies && MissingPeer(itemMap, path, p)
    ensures r.Success? ==> r.value.2 == pushedIncluded + pushedRequired
    ensures r.Success? ==>
      Expanded(itemMap, ignored, Statuses(includedBy, requiredBy), Statuses(r.value.0, r.value.1), cur, path, pushedIncluded, pushedRequired)
  {
    var meta := MetaOf(itemMap, cur).value;
    var includedBy', pushed := RecordInclusions(cur, path, meta.includedPackages, includedBy);
    pushedIncluded := pushed;
    var required := RecordRequirements(itemMap, ignored, cur, path, meta.peerDependencies, requiredBy);
    if required.Failure? {
      return Failure(required.error), pushedIncluded, [];
    }
    pushedRequired := required.value.1;
    r := Success((includedBy', required.value.0, pushed + required.value.1));
  }

  /** The `from` entries for `n` queue entries pushed by the same package, or seeded. */
  function Pushers(n: nat, from: Option<IdentHash>): (r: seq<Option<IdentHash>>)
    ensures |r| == n && forall k :: 0 <= k < n ==> r[k] == from
  {
    seq(n, k => from)
  }

  /**
   * Lines 29-94: the walk. Failure is the throw at line 69, on a parsed peer
   * requirement naming a package that is not listed.
   */
  method Explore(lib: Lib, itemMap: OMap<IdentHash, UpdatableItem>)
    returns (r: Result<Statuses>, ghost paths: map<IdentHash, set<IdentHash>>, ghost via: map<IdentHash, IdentHash>)
    ensures r.Failure? ==> ThrowsOnWalk(itemMap, IgnoreTest(lib, itemMap), paths, via)
    ensures r.Success? ==> Explored(itemMap, IgnoreTest(lib, itemMap), paths, via, r.value)
  {
    var ignored := IgnoreTest(lib, itemMap);
    var seeds := Filter(itemMap.keys, Selector(itemMap));
    var queue := Tagged(seeds, {});
    ghost var from: seq<Option<IdentHash>> := Pushers(|seeds|, None);
    var seen: set<IdentHash> := {};
    var includedBy: Requesters, requiredBy: Requesters := map[], map[];
    paths, via := map[], map[];
    ghost var universe := Universe(itemMap);
    WalkStart(itemMap, ignored, universe, seeds);
    while |queue| > 0
      invariant Walk(itemMap, ignored, universe, queue, from, paths, via, Statuses(includedBy, requiredBy))
      invariant seen == paths.Keys
      decreases |universe - seen|, |queue|
    {
      var current, includers := queue[0].0, queue[0].1;
      ghost var st := Statuses(includedBy, requiredBy);
      if current in seen {
        WalkSkip(itemMap, ignored, universe, queue, from, paths, via, st);
        queue, from := queue[1..], from[1..];
        continue;
      }
      assert QueueFrom(itemMap, ignored, universe, queue, from, paths);
      WalkCloser(universe, seen, current);
      var meta := MetaOf(itemMap, current);
      var pushed: seq<IdentHash> := [];
      if meta.None? {
        WalkBare(itemMap, ignored, universe, queue, from, paths, via, st, current, includers);
      } else {
        var expanded, pushedIncluded, pushedRequired := Expand(itemMap, ignored, current, includers, includedBy, requiredBy);
        if expanded.Failure? {
          assert Queued(itemMap, ignored, paths, queue[0], from[0]);
          ThrownAt(itemMap, ignored, queue, from, paths, via, current, includers);
          paths, via := paths[current := includers], if from[0].Some? then via[current := from[0].value] else via;
          return Failure(expanded.error), paths, via;
        }
        WalkMeta(itemMap, ignored, queue, from, paths, via, st, current, includers, pushedIncluded, pushedRequired,
                 Statuses(expanded.value.0, expanded.value.1));
        includedBy, requiredBy, pushed := expanded.value.0, expanded.value.1, expanded.value.2;
      }
      KeysAdd(paths, current, includers);
      seen := seen + {current};
      if from[0].Some? {
        via := via[current := from[0].value];
      }
      paths := paths[current := includers];
      queue := queue[1..] + Tagged(pushed, includers + {current});
      from := from[1..] + Pushers(|pushed|, Some(current));
    }
    WalkDone(itemMap, ignored, universe, from, paths, via, Statuses(includedBy, requiredBy));
    r := Success(Statuses(includedBy, requiredBy));
  }

  // ---------------------------------------------------------------------------
  // Narrowing the includers (lines 96-106)

  /** The requesters whose own package is not in `included`, in order. */
  function NotFrom(qs: seq<Requester>, included: set<IdentHash>): (r: seq<Requester>)
    ensures forall q :: q in r <==> q in qs && q.ident !in included
  {
    if |qs| == 0 then []
    else
      assert qs == [qs[0]] + qs[1..];
      (if qs[0].ident in included then [] else [qs[0]]) + NotFrom(qs[1..], included)
  }

  /**
   * Lines 102-105: the includers that are not themselves included, or all of
   * them when every one is.
   */
  function Narrowed(includers: seq<Requester>, included: set<IdentHash>): (r: seq<Requester>)
    ensures forall q :: q in r <==> q in includers && (q.ident !in included || forall x :: x in includers ==> x.ident in included)
    ensures |includers| > 0 ==> |r| > 0
  {
    var filtered := NotFrom(includers, included);
    if |filtered| > 0 then
      assert filtered[0] in includers && filtered[0].ident !in included;
      filtered
    else
      assert forall x :: x in includers ==> x.ident in included;
      includers
  }

  /** What lines 96-106 make of the walk's maps. */
  ghost predicate NarrowedFrom(raw: Statuses, st: Statuses) {
    && st.includedBy.Keys == raw.includedBy.Keys
    && (forall t :: t in raw.includedBy ==> st.includedBy[t] == Narrowed(raw.includedBy[t], raw.includedBy.Keys))
    && st.requiredBy == raw.requiredBy - raw.includedBy.Keys
  }

  /**
   * Lines 96-106: an included package is never also required, and its
   * includers are narrowed to those that are not included themselves.
   */
  method Narrow(raw: Statuses) returns (st: Statuses)
    ensures NarrowedFrom(raw, st)
    ensures forall t :: t in st.includedBy ==> t !in st.requiredBy
  {
    var includedBy, requiredBy := raw.includedBy, raw.requiredBy;
    var todo := raw.includedBy.Keys;
    while todo != {}
      invariant todo <= raw.includedBy.Keys && includedBy.Keys == raw.includedBy.Keys
      invariant forall t :: t in todo ==> includedBy[t] == raw.includedBy[t]
      invariant forall t :: t in raw.includedBy && t !in todo ==> includedBy[t] == Narrowed(raw.includedBy[t], raw.includedBy.Keys)
      invariant requiredBy == raw.requiredBy - (raw.includedBy.Keys - todo)
      decreases todo
    {
      var t :| t in todo;
      requiredBy := requiredBy - {t};
      var filtered := NotFrom(includedBy[t], includedBy.Keys);
      if |filtered| > 0 {
        includedBy := includedBy[t := filtered];
      }
      todo := todo - {t};
    }
    st := Statuses(includedBy, requiredBy);
  }

  /**
   * `getItemStatus` for every package at once: the walk, then the narrowing.
   * `raw` is what the walk recorded before the narrowing.
   */
  method GetItemStatuses(lib: Lib, itemMap: OMap<IdentHash, UpdatableItem>)
    returns (r: Result<Statuses>, ghost paths: map<IdentHash, set<IdentHash>>, ghost via: map<IdentHash, IdentHash>, ghost raw: Statuses)
    ensures r.Failure? ==> ThrowsOnWalk(itemMap, IgnoreTest(lib, itemMap), paths, via)
    ensures r.Success? ==> Explored(itemMap, IgnoreTest(lib, itemMap), paths, via, raw) && NarrowedFrom(raw, r.value)
  {
    var explored;
    explored, paths, via := Explore(lib, itemMap);
    if explored.Failure? {
      return Failure(explored.error), paths, via, Statuses(map[], map[]);
    }
    var st := Narrow(explored.value);
    raw := explored.value;
    r := Success(st);
  }

  /** An includer that survives the narrowing is an expanded package with a package-group edge to `t`. */
  lemma IncludersHaveEdges(itemMap: OMap<IdentHash, UpdatableItem>, ignored: Ignore, paths: map<IdentHash, set<IdentHash>>,
                           via: map<IdentHash, IdentHash>, raw: Statuses, st: Statuses, t: IdentHash, q: Requester)
    requires Explored(itemMap, ignored, paths, via, raw) && NarrowedFrom(raw, st)
    requires Records(st.includedBy, t, q)
    ensures q.ident in paths && IncludeEdge(itemMap, q.ident, paths[q.ident], t, q.range)
    ensures q.ident in st.includedBy ==> forall x :: x in raw.includedBy[t] ==> x.ident in st.includedBy
  {
    assert Records(raw.includedBy, t, q);
  }

  /** A required package has a requirer: an expanded package whose peer requirement on it was not already met. */
  lemma RequiredHasCause(itemMap: OMap<IdentHash, UpdatableItem>, ignored: Ignore, paths: map<IdentHash, set<IdentHash>>,
                         via: map<IdentHash, IdentHash>, raw: Statuses, st: Statuses, t: IdentHash)
    requires Explored(itemMap, ignored, paths, via, raw) && NarrowedFrom(raw, st)
    requires t in st.requiredBy
    ensures t in paths && t !in st.includedBy
    ensures exists q :: q in st.requiredBy[t] && q.ident in paths && PeerEdge(itemMap, ignored, q.ident, paths[q.ident], t, q.range)
  {
    var q := st.requiredBy[t][0];
    assert Records(raw.requiredBy, t, q);
  }

  // ---------------------------------------------------------------------------
  // Classifications (lines 118-151)

  /** `getIncluders` */
  function GetIncluders(st: Statuses, ident: IdentHash): Option<seq<Requester>> {
    if ident in st.includedBy then Some(st.includedBy[ident]) else None
  }

  /** `getRequirers` */
  function GetRequirers(st: Statuses, ident: IdentHash): Option<seq<Requester>> {
    if ident in st.requiredBy then Some(st.requiredBy[ident]) else None
  }

  /** `isSelected`: the package has a range of the user's (null and undefined are no selection). */
  predicate IsSelected(itemMap: OMap<IdentHash, UpdatableItem>, ident: IdentHash)
    requires ident in itemMap.entries
  {
    itemMap.entries[ident].selectedRange.IsSet()
  }

  /** `isIncluded` */
  predicate IsIncluded(itemMap: OMap<IdentHash, UpdatableItem>, st: Statuses, ident: IdentHash)
    requires ident in itemMap.entries
  {
    !IsSelected(itemMap, ident) && GetIncluders(st, ident).Some?
  }

  /** `isRequired` */
  predicate IsRequired(itemMap: OMap<IdentHash, UpdatableItem>, st: Statuses, ident: IdentHash)
    requires ident in itemMap.entries
  {
    !(IsSelected(itemMap, ident) || IsIncluded(itemMap, st, ident)) && GetRequirers(st, ident).Some?
  }

  /**
   * The three classifications exclude each other, and a package is in one of
   * them exactly when it is selected or has an includer or a requirer.
   */
  lemma StatusesExclusive(itemMap: OMap<IdentHash, UpdatableItem>, st: Statuses, ident: IdentHash)
    requires ident in itemMap.entries
    ensures !(IsSelected(itemMap, ident) && IsIncluded(itemMap, st, ident))
    ensures !(IsSelected(itemMap, ident) && IsRequired(itemMap, st, ident))
    ensures !(IsIncluded(itemMap, st, ident) && IsRequired(itemMap, st, ident))
    ensures IsSelected(itemMap, ident) || IsIncluded(itemMap, st, ident) || IsRequired(itemMap, st, ident) <==>
      IsSelected(itemMap, ident) || ident in st.includedBy || ident in st.requiredBy
  {
  }

  // ---------------------------------------------------------------------------
  // The required range (lines 136-145)

  const EmptyReduceError := "TypeError: Reduce of empty array with no initial value"

  /** What the requesters demand, in order. */
  function Demands(qs: seq<Requester>): (r: seq<Demand>)
    ensures |r| == |qs| && forall k :: 0 <= k < |qs| ==> r[k] == qs[k].range
  {
    seq(|qs|, k requires 0 <= k < |qs| => qs[k].range)
  }

  /**
   * `getRequiredRange`: null without requirers; otherwise the intersection
   * of the parsed ranges they demand, which is `reduce` without an initial
   * value and so throws when none of them is parsed.
   */
  function GetRequiredRange(lib: Lib, st: Statuses, ident: IdentHash): (r: Result<Option<Range>>)
    ensures r.Failure? <==> ident in st.requiredBy && forall q :: q in st.requiredBy[ident] ==> q.range.TextDemand?
    ensures ident !in st.requiredBy ==> r == Success(None)
    ensures r.Success? && ident in st.requiredBy ==> r.value == CombinedRange(lib, Demands(st.requiredBy[ident]))
  {
    match GetRequirers(st, ident)
    case None => Success(None)
    case Some(requirers) =>
      var ranges := RangesOf(Demands(requirers));
      if |ranges| == 0 then
        assert forall q :: q in requirers ==> q.range.TextDemand? by {
          forall q | q in requirers ensures q.range.TextDemand? {
            var k :| 0 <= k < |requirers| && requirers[k] == q;
            assert Demands(requirers)[k] == q.range;
          }
        }
        Failure(EmptyReduceError)
      else
        assert exists q :: q in requirers && q.range.RangeDemand? by {
          var d :| d in Demands(requirers) && d == RangeDemand(ranges[0]);
          var k :| 0 <= k < |requirers| && Demands(requirers)[k] == d;
          assert requirers[k] in requirers;
        }
        Success(IntersectAll(lib, ranges))
  }

  // ---------------------------------------------------------------------------
  // The range shown for an item (lines 153-190)

  const InvalidRangeError := "TypeError: Invalid comparator"
  const MissingRangeError := "AssertionError: Failed to get range"
  const MissingFirstError := "TypeError: Cannot read properties of undefined (reading 'range')"

  /** `intersects(s, required)` returns false: `s` parses and shares no version with the required range. */
  predicate Misses(lib: Lib, s: string, required: Range) {
    lib.validRange(s).Some? && !lib.rangesIntersect(lib.validRange(s).value, required)
  }

  /** None of the first `k` suggestions parses to a range that shares a version with `required`. */
  predicate MissedBefore(lib: Lib, suggestions: seq<string>, required: Range, k: int)
    requires 0 <= k <= |suggestions|
  {
    forall j :: 0 <= j < k ==> Misses(lib, suggestions[j], required)
  }

  /**
   * `suggestions.find(r => intersects(r, required))`: the first suggestion
   * that shares a version with the required range; `intersects` throws on
   * a suggestion that does not parse.
   */
  function FindIntersecting(lib: Lib, suggestions: seq<string>, required: Range): (r: Result<Option<string>>)
    ensures r.Failure? ==> r.error == InvalidRangeError
  {
    if |suggestions| == 0 then Success(None)
    else
      match lib.validRange(suggestions[0])
      case None => Failure(InvalidRangeError)
      case Some(parsed) =>
        if lib.rangesIntersect(parsed, required) then Success(Some(suggestions[0]))
        else FindIntersecting(lib, suggestions[1..], required)
  }

  /**
   * The search stops at the first suggestion that does not parse or that
   * meets the required range, and finds nothing only when every suggestion
   * misses it.
   */
  lemma {:induction false} FindIntersectingStops(lib: Lib, suggestions: seq<string>, required: Range)
    ensures FindIntersecting(lib, suggestions, required) == Success(None) <==> MissedBefore(lib, suggestions, required, |suggestions|)
    ensures FindIntersecting(lib, suggestions, required).Success? && FindIntersecting(lib, suggestions, required).value.Some? ==>
      (exists k :: 0 <= k < |suggestions| && suggestions[k] == FindIntersecting(lib, suggestions, required).value.value &&
         lib.validRange(suggestions[k]).Some? && lib.rangesIntersect(lib.validRange(suggestions[k]).value, required) &&
         MissedBefore(lib, suggestions, required, k))
    ensures FindIntersecting(lib, suggestions, required).Failure? ==>
      (exists k :: 0 <= k < |suggestions| && lib.validRange(suggestions[k]).None? && MissedBefore(lib, suggestions, required, k))
  {
    if |suggestions| > 0 && lib.validRange(suggestions[0]).Some? && !lib.rangesIntersect(lib.validRange(suggestions[0]).value, required) {
      var tail := suggestions[1..];
      FindIntersectingStops(lib, tail, required);
      var r := FindIntersecting(lib, tail, required);
      assert forall k :: 0 <= k < |tail| ==> suggestions[k + 1] == tail[k];
      assert forall k :: 0 <= k <= |tail| ==> (MissedBefore(lib, tail, required, k) <==> MissedBefore(lib, suggestions, required, k + 1)) by {
        forall k | 0 <= k <= |tail|
          ensures MissedBefore(lib, tail, required, k) <==> MissedBefore(lib, suggestions, required, k + 1)
        {
          assert forall j :: 0 < j < k + 1 ==> suggestions[j] == tail[j - 1];
        }
      }
      if r.Success? && r.value.Some? {
        var k :| 0 <= k < |tail| && tail[k] == r.value.value && lib.validRange(tail[k]).Some? &&
          lib.rangesIntersect(lib.validRange(tail[k]).value, required) && MissedBefore(lib, tail, required, k);
        assert suggestions[k + 1] == tail[k];
      }
      if r.Failure? {
        var k :| 0 <= k < |tail| && lib.validRange(tail[k]).None? && MissedBefore(lib, tail, required, k);
        assert suggestions[k + 1] == tail[k];
      }
    } else if |suggestions| > 0 {
      assert !Misses(lib, suggestions[0], required);
      assert MissedBefore(lib, suggestions, required, 0);
    }
  }

  /** `requesters[0].range` rendered by `rangeToString`; an empty list has no first entry. */
  function FirstRange(qs: seq<Requester>): (r: Result<string>)
    ensures |qs| > 0 <==> r.Success?
    ensures |qs| > 0 ==> r.value == RangeToString(qs[0].range, false)
  {
    if |qs| == 0 then Failure(MissingFirstError) else Success(RangeToString(qs[0].range, false))
  }

  /** The suggestion shown for `item` given its required range: none unless both are known (lines 157-160). */
  function SuggestionFor(lib: Lib, item: UpdatableItem, required: Option<Range>): Result<Option<string>> {
    if required.Some? && item.suggestions.Some? then FindIntersecting(lib, item.suggestions.value, required.value)
    else Success(None)
  }

  /** The package has a list of suggestions and `s` is on it. */
  predicate Suggested(item: UpdatableItem, s: string) {
    item.suggestions.Some? && s in item.suggestions.value
  }

  /**
   * `getRangeForItem`, in order of preference: a suggestion that meets the
   * required range, the user's range, the first includer's range, the first
   * requirer's range; the assertion at line 180 fails when there is none.
   */
  function GetRangeForItem(lib: Lib, itemMap: OMap<IdentHash, UpdatableItem>, st: Statuses, ident: IdentHash): (r: Result<string>)
    requires ident in itemMap.entries
    ensures r == Failure(MissingRangeError) <==>
      !IsSelected(itemMap, ident) && !IsIncluded(itemMap, st, ident) && !IsRequired(itemMap, st, ident)
  {
    var item := itemMap.entries[ident];
    var required :- GetRequiredRange(lib, st, ident);
    var found :- SuggestionFor(lib, item, required);
    if found.Some? then Success(found.value)
    else if item.selectedRange.Chosen? then Success(item.selectedRange.range)
    else if ident in st.includedBy then FirstRange(st.includedBy[ident])
    else if ident in st.requiredBy then FirstRange(st.requiredBy[ident])
    else Failure(MissingRangeError)
  }

  /**
   * The range shown for a package is a suggestion that meets its required
   * range, or else the range of what put it in its class: the user's range,
   * the first includer's or the first requirer's.
   */
  lemma RangeForItemSource(lib: Lib, itemMap: OMap<IdentHash, UpdatableItem>, st: Statuses, ident: IdentHash)
    requires ident in itemMap.entries
    ensures var r, required := GetRangeForItem(lib, itemMap, st, ident), GetRequiredRange(lib, st, ident);
      r.Success? ==>
        || (Suggested(itemMap.entries[ident], r.value) && required.value.Some? &&
            lib.validRange(r.value).Some? && lib.rangesIntersect(lib.validRange(r.value).value, required.value.value))
        || (IsSelected(itemMap, ident) && r.value == itemMap.entries[ident].selectedRange.range)
        || (IsIncluded(itemMap, st, ident) && |st.includedBy[ident]| > 0 && r.value == RangeToString(st.includedBy[ident][0].range, false))
        || (IsRequired(itemMap, st, ident) && |st.requiredBy[ident]| > 0 && r.value == RangeToString(st.requiredBy[ident][0].range, false))
  {
    var item := itemMap.entries[ident];
    var required := GetRequiredRange(lib, st, ident);
    if required.Success? && required.value.Some? && item.suggestions.Some? {
      FindIntersectingStops(lib, item.suggestions.value, required.value.value);
    }
  }

  /**
   * A selected package shows a suggestion only when the suggestion meets its
   * required range; otherwise it shows the range the user chose.
   */
  lemma SelectedShowsOwnRange(lib: Lib, itemMap: OMap<IdentHash, UpdatableItem>, st: Statuses, ident: IdentHash)
    requires ident in itemMap.entries && IsSelected(itemMap, ident)
    requires GetRequiredRange(lib, st, ident).Success?
    requires GetRequiredRange(lib, st, ident).value.None? || itemMap.entries[ident].suggestions.None?
    ensures GetRangeForItem(lib, itemMap, st, ident) == Success(itemMap.entries[ident].selectedRange.range)
  {
  }
}
