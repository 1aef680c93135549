# yarn-plugin-angular: `yarn ng update-interactive`, modelled in Dafny

This project models the resolution logic behind `yarn ng update-interactive`.
The command lists the packages the workspaces of a project depend on. It
suggests newer ranges for each one, and lets the user choose among them. It
then works out which other packages must move along: peer dependencies are
*required*, and the members of an Angular `ng-update.packageGroup` are
*included*. Finally it writes the new ranges into the manifests and lists the
Angular migrations to run.

The modules follow the program's structure:

- `Semver`, `Ranges`: versions ordered as section 11 of Semantic Versioning
  2.0.0 prescribes, and the range algebra of `utils/ranges.ts`. This covers
  clause intersection by bound merging, the satisfiability loop,
  `sortByMaxVersion`, `simplifyRange` and the style-keeping `getUpdatableRange`.
- `Resolver`: the suggestion filters, the bucketing loop of `cleanVersions`,
  the latest/next choice, and the `UpdateResolver` caches, as a class.
- `Reachability`, `Selection`, `Propagation`, `SelectionUpdate`,
  `LoopStripping`: `updateSelection`, a worklist fixpoint bounded to 20
  passes over the selected/required and included maps. It is followed by the
  pruning passes and the stripping of demand loops.
- `Status`: the breadth-first walk of `getItemStatus`, the exclusive item
  classifications, and the range shown for an item.
- `Confirm`, `Command`: the final update collection and `parseRange`. The
  command side covers `getAllDependencies`, the manifest lookup, the loop
  that writes the collection back into the manifests, and the arguments of
  each migration run.
- `Reducer`, `Hook`, `Misc`, `Iterables`, `OrderedMaps`, `Sorting`: the event
  reducer, the grouping of dependencies into items, and the copy-on-write
  helpers. JavaScript's insertion-ordered `Map` becomes an ordered map.
- `ListInput`, `SelectList`, `PageSelect`, `RangeSelector`: the computations
  inside the user interface. These are the cyclic navigation that skips
  disabled entries, the scroll window, the three-list partition with the
  active item, and the range options.

External libraries are passed in as a record of function values (`Lib`). These
are the `own-semver` parser and its `intersects`, `subset`, `minVersion` and
`satisfies`, and yarn's `structUtils` and `cleanRange`. Any law the model needs
about them is stated as a lemma hypothesis. Errors that the code throws (a
failed `getRequired`, a `reduce` without an initial value, `format()` on
node-semver's ANY comparator) are modelled as `Result` failures.

Several behaviours of the code are modelled as written:

- The exact-version shortcut of `ranges.ts:31` fires whenever the first
  comparator has no operator, because of operator precedence.
- A combined range of plain-text demands is null, which `selection.ts:102`
  treats as a conflict.
- `getRequiredRange` fails when every requirer's range is plain text.
- The fields that the interfaces leave undeclared (`meta`, `suggestions`,
  `migrationsDisabled`, `fetchMetaQueue`) are modelled as optional fields.
- `hook.ts` imports a `reduceAppState` that `reducer.ts` does not export. The
  model uses the reducer that `createAppStateReducer` returns.

Where the code departs from what its authors evidently meant, both versions
are modelled; see "Findings".

## Model

| member | source | states |
|---|---|---|
| Ranges.GetBounds | src/update-interactive/utils/ranges.ts:100-112 | the lower bound found is a `>`/`>=` comparator of the clause with a version, the upper a `<`/`<=` one; each is absent exactly when the clause has no such comparator |
| Ranges.MergeLower | src/update-interactive/utils/ranges.ts:43-61 | the merged lower bound is present when either is, and is one of the two |
| Ranges.MergeUpper | src/update-interactive/utils/ranges.ts:63-81 | the merged upper bound is present when either is, and is one of the two |
| Ranges.MergeLowerKeepsHigher | src/update-interactive/utils/ranges.ts:43-61 | of two lower bounds the higher version is kept, and at equal versions a strict `>` wins |
| Ranges.MergeUpperKeepsLower | src/update-interactive/utils/ranges.ts:63-81 | of two upper bounds the lower version is kept, and at equal versions a strict `<` wins |
| Ranges.MergeLowerExact | src/update-interactive/utils/ranges.ts:43-61 | a version passes the merged lower bound exactly when it passes both lower bounds |
| Ranges.MergeUpperExact | src/update-interactive/utils/ranges.ts:63-81 | a version passes the merged upper bound exactly when it passes both upper bounds |
| Ranges.IsSatisfiable | src/update-interactive/utils/ranges.ts:114-128 | the popping loop answers true exactly when every comparator intersects every comparator before it |
| Ranges.FilterPassing | src/update-interactive/utils/ranges.ts:93-97 | null exactly when the version passes no comparator; otherwise exactly the comparators it passes |
| Ranges.IntersectClauses | src/update-interactive/utils/ranges.ts:27-98 | the exact-version shortcut of either clause keeps the other clause's comparators that the version passes (null if none); otherwise the merged bounds, null exactly when they are not satisfiable, the first clause itself when neither clause has a bound, and every comparator of the result comes from one of the clauses |
| Ranges.IntersectClausesKeepsCommon | src/update-interactive/utils/ranges.ts:27-98 | a version that both clauses accept is accepted by their intersection |
| Ranges.IntersectBoundPairsExact | src/update-interactive/utils/ranges.ts:37-91 | for two lower/upper bound pairs, the intersection accepts exactly the versions both accept |
| Ranges.ExactShortcutKeepsPartialMatch | src/update-interactive/utils/ranges.ts:31-35 | the shortcut is not an intersection: `1.5.0` with `>=1.0.0 <1.2.0` gives `>=1.0.0`, which accepts 1.0.0, a version `1.5.0` rejects |
| Ranges.RowIntersections | src/update-interactive/utils/ranges.ts:16 | one row of the pair map: the non-null intersections of the left clause with each clause of the other range, in that range's order |
| Ranges.RowIntersectionsMembers | src/update-interactive/utils/ranges.ts:16 | a clause is in the row exactly when it is the non-null intersection of the left clause with some clause of the other range |
| Ranges.PairIntersections | src/update-interactive/utils/ranges.ts:15-18 | the rows of every left clause, in order, flattened: the non-null intersections of each clause pair, grouped by left clause |
| Ranges.PairIntersectionsMembers | src/update-interactive/utils/ranges.ts:15-18 | a clause is kept exactly when it is the non-null intersection of some clause of each range |
| Ranges.GetIntersection | src/update-interactive/utils/ranges.ts:10-25 | null when the ranges do not intersect, or exactly when no clause pair has an intersection; otherwise the clauses are exactly the pair intersections in order, so a clause is kept exactly when it is the intersection of a clause of each range |
| Ranges.GetIntersectionKeepsCommon | src/update-interactive/utils/ranges.ts:10-25 | a version admitted by a clause of each range whose intersection is not null is admitted by some clause of the intersection |
| Ranges.LowestNextVersion | src/update-interactive/utils/ranges.ts:169-181 | a release X.Y.Z becomes X.Y.(Z+1)-0, and the result is always greater than the version |
| Ranges.LowestNextVersionIsNext | src/update-interactive/utils/ranges.ts:169-181 | no version lies strictly between a release and its lowest next version |
| Ranges.MaxVersion | src/update-interactive/utils/ranges.ts:163 | the reduce returns one of the versions, and none of them is greater |
| Ranges.SortByMaxVersion | src/update-interactive/utils/ranges.ts:130-167 | the result is a permutation of the descriptors, in non-increasing order of their keys |
| Ranges.SortKeyCases | src/update-interactive/utils/ranges.ts:133-163 | the key is 0.0.0 for an unparseable range, the lowest next version for an exact version, and otherwise the largest of the clause keys |
| Ranges.TrimJs | src/update-interactive/utils/ranges.ts:320 | `trim()` removes only leading and trailing whitespace, and leaves text that neither starts nor ends with it alone |
| Ranges.StylesExclusive | src/update-interactive/utils/ranges.ts:200-206 | no text matches two of the five patterns, so the order of the styles does not change which one applies |
| Ranges.BoundedRewrite | src/update-interactive/utils/ranges.ts:205-259 | only a valid version with bounds `>=lo <up` of a single clause is rewritten: to `^v` exactly when `up` is the next major of `lo`, to `~v` exactly when otherwise it is the next minor, to the `>=v <0.N00.0` window exactly when otherwise it ends the hundred-minor window of `lo`, and to nothing in every other case |
| Ranges.Rewrite | src/update-interactive/utils/ranges.ts:200-204 | the caret, tilde, `>` and `>=` styles never decline |
| Ranges.GetUpdatableRange | src/update-interactive/utils/ranges.ts:310-330 | the loop returns the version when there is no old range or it is an exact version, else the first style that matches the trimmed old range and does not decline, else the version |
| Ranges.FirstRewriteMatches | src/update-interactive/utils/ranges.ts:319-329 | when the old range matches a style, the result is that style's rewrite when there is one, else the version itself |
| Ranges.UpdatableRangeKeepsStyle | src/update-interactive/utils/ranges.ts:200-330 | the new range is the rewrite of the style the old range matches, else the bare version; a caret, tilde, `>` or `>=` range stays in its style, and a bounded range becomes a caret, a tilde, a bounded range or the bare version |
| Ranges.RewriteKeepsStyle | src/update-interactive/utils/ranges.ts:200-206 | each style's rewrite is written in that style; the bounded style's may instead be a caret or tilde range |
| Ranges.PrefixedMatches | src/update-interactive/utils/ranges.ts:201-204 | a plain version behind `^`, `~`, `>` or `>=` matches that style's pattern |
| Ranges.WindowMatches | src/update-interactive/utils/ranges.ts:206 | the window `>=v <0.N00.0` matches the bounded pattern (also line 258) |
| Ranges.SimplifyClauseAsWritten | src/update-interactive/utils/ranges.ts:272-304 | only a `>=` / `<` pair is turned into a caret or tilde range |
| Ranges.CaretOfZeroMajorNarrows | src/update-interactive/utils/ranges.ts:282-290 | `>=0.2.3 <1.0.0` becomes `^0.2.3`, which no longer accepts 0.5.0 |
| Ranges.TildeOfPrereleaseUpperNarrows | src/update-interactive/utils/ranges.ts:293-301 | `>=1.2.3 <1.3.0-beta` becomes `~1.2.3`, which no longer accepts 1.3.0-0 |
| Ranges.ExtraComparatorWidens | src/update-interactive/utils/ranges.ts:272-290 | `>=1.2.3 <2.0.0 <1.5.0` becomes `^1.2.3`, which accepts 1.6.0 the clause rejects, while the corrected simplification keeps the clause |
| Ranges.SimplifyClause | src/update-interactive/utils/ranges.ts:272-304 | the corrected half of Findings row 1: only a clause that is nothing but a `>=` / `<` pair becomes a caret or tilde range, and only when its upper bound is a release or carries the prerelease `-0` that node-semver gives `^` and `~` ranges (and, for a caret, the major is above 0); every other clause is kept verbatim |
| Ranges.NormalisedRangesSimplified | src/update-interactive/utils/ranges.ts:282-301 | the clauses node-semver makes of `^1.2.3` and `~0.2.3`, `>=1.2.3 <2.0.0-0` and `>=0.2.3 <0.3.0-0`, are written back as `^1.2.3` and `~0.2.3`, as the code as written does |
| Ranges.ZeroPrereleaseUpperSame | src/update-interactive/utils/ranges.ts:282-301 | for a release upper bound u whose version part differs from the lower bound's, `<u` and `<u-0` accept the same versions |
| Ranges.AllowsPrereleasePair | src/update-interactive/utils/ranges.ts:272-304 | a prerelease is accepted by a bound pair only when it shares its version part with a prerelease bound |
| Ranges.SimplifyClauseExact | src/update-interactive/utils/ranges.ts:272-304 | for every clause, the part it is simplified to accepts exactly the versions the clause accepts |
| Ranges.VerbatimText | src/update-interactive/utils/ranges.ts:275 | writing a clause out fails exactly when a comparator holds ANY, and then with the error of `format()` on ANY |
| Ranges.PartText | src/update-interactive/utils/ranges.ts:289 | a part fails to be written only with the error of formatting ANY (also lines 300 and 304) |
| Ranges.SimplifiedParts | src/update-interactive/utils/ranges.ts:271-305 | one part per clause, each the clause simplified by the corrected rule of Findings row 1, so each part accepts exactly the versions of its clause |
| Ranges.PartsText | src/update-interactive/utils/ranges.ts:269-305 | when written, one text per part; a failure is the error of formatting ANY (with the corrected clause simplification of Findings row 1) |
| Ranges.SimplifyRange | src/update-interactive/utils/ranges.ts:263-308 | the result is the text of the simplified parts joined with the separator of alternatives, or the range text itself when it does not parse (with the corrected clause simplification of Findings row 1) |
| Ranges.WriteParts | src/update-interactive/utils/ranges.ts:269-305 | the loop pushes each part's text in order and stops at the first part that cannot be written (with the corrected clause simplification of Findings row 1) |
| Ranges.PartsTextSucceeds | src/update-interactive/utils/ranges.ts:269-305 | the parts are written exactly when each part can be, and each text is in its part's place |
| Ranges.SimplifiedRangeFails | src/update-interactive/utils/ranges.ts:263-308 | simplification fails exactly when the range parses and a clause kept verbatim holds ANY |
| Ranges.ByKeyDescendingConsistent | src/update-interactive/utils/ranges.ts:165 | the comparator the sort uses orders descriptors consistently: antisymmetric and transitive on their keys |
| Ranges.ClauseKeyMutating | src/update-interactive/utils/ranges.ts:144-161 | the key the sort computes on the memoised clause equals the key of the clause before the mutation, and the clause keeps its length (also line 180) |
| Ranges.SortMutatesMemoisedRange | src/update-interactive/utils/ranges.ts:150-156 | for `<=1.2.3`, the first sort keys the descriptor by 1.2.4-0 and leaves the cached comparator as `<=1.2.4-0`, which accepts 1.2.4-0; the next sort keys it by 1.2.4-1 (also line 180) |
| Resolver.StripNpm | src/update-interactive/update-resolver.ts:26 | an `npm:` prefix is cut off, any other text is kept as is (also line 39) |
| Resolver.ValidSemVer | src/update-interactive/update-resolver.ts:22-32 | a text with the `npm:` prefix is read as the version its remainder denotes, and any other text as the version it denotes itself |
| Resolver.ValidSemVerNpm | src/update-interactive/update-resolver.ts:22-45 | exactly one `npm:` is stripped: `npm:` followed by any text is read as that text, as a version and as a range |
| Resolver.ValidSemVerPlain | src/update-interactive/update-resolver.ts:22-45 | a text without the prefix is read unchanged, so putting `npm:` before it gives the same version and the same range |
| Resolver.ValidSemVerRange | src/update-interactive/update-resolver.ts:35-45 | a text with the `npm:` prefix is read as the range its remainder denotes, and any other text as the range it denotes itself |
| Resolver.KeepUnlessEmpty | src/update-interactive/update-resolver.ts:55-57 | a filter that would leave nothing keeps every version; otherwise exactly the versions that pass, never more than the input holds (also lines 77-79) |
| Resolver.RemoveVersionsAfterLatest | src/update-interactive/update-resolver.ts:47-58 | without a latest version, or when every version is newer than it, the versions are unchanged; otherwise exactly the versions up to the latest |
| Resolver.RemoveOlderVersions | src/update-interactive/update-resolver.ts:60-80 | without a minimum (neither a version nor a range with a minimum), or when every version is older than it, the versions are unchanged; otherwise exactly the versions from the minimum on |
| Resolver.ApplyRequirement | src/update-interactive/update-resolver.ts:82-91 | without a requirement the versions are unchanged; otherwise exactly those that satisfy it |
| Resolver.HeadsProps | src/update-interactive/update-resolver.ts:107-122 | the versions that open a bucket come from the input, every version's bucket is opened by one, and no bucket is opened twice |
| Resolver.OfMajor | src/update-interactive/update-resolver.ts:120 | the minors of one major, in order: exactly the versions of that major (also line 133) |
| Resolver.TallyOfDescribes | src/update-interactive/update-resolver.ts:107-122 | after the loop, `majors` and `minors` list the buckets in order of appearance, `versionMap` holds the first (newest) version of each, and `majorMinorMap` lists each major's minors in order |
| Resolver.TallyVersions | src/update-interactive/update-resolver.ts:98-122 | the loop fills the four collections exactly as the tally of the sorted versions describes |
| Resolver.TallyChooses | src/update-interactive/update-resolver.ts:124-139 | with one major the minors are used, with two the newer major's minors then the older's, otherwise the majors, and `versionMap` holds the version of every bucket used |
| Resolver.CleanVersions | src/update-interactive/update-resolver.ts:93-146 | the method returns the cleaned versions: the newest version of each of the first four buckets used, oldest first, each rewritten in the style of the current range |
| Resolver.CleanedVersions | src/update-interactive/update-resolver.ts:141-145 | one range per version picked |
| Resolver.SortDescendingProps | src/update-interactive/update-resolver.ts:105 | the sort is a permutation into non-increasing order |
| Resolver.HeadsOfSorted | src/update-interactive/update-resolver.ts:107-122 | on sorted versions the bucket heads are strictly descending, each the newest of its bucket, and the first is the newest version |
| Resolver.MajorsDescending | src/update-interactive/update-resolver.ts:131 | with two or more majors the first major is the newer |
| Resolver.VersionsToUseProps | src/update-interactive/update-resolver.ts:124-139 | the versions used are strictly descending, start with the newest version, and each heads its bucket |
| Resolver.PicksBounded | src/update-interactive/update-resolver.ts:94-96 | no version is suggested exactly when there are none, at most four are, and each is one of the input versions (also lines 141-142) |
| Resolver.PicksAscending | src/update-interactive/update-resolver.ts:141-145 | the suggestions are strictly ascending, and the last one is the newest input version |
| Resolver.PicksNewestOfBucket | src/update-interactive/update-resolver.ts:107-122 | each suggestion is the newest version of its bucket (also lines 141-143) |
| Resolver.PicksFromUse | src/update-interactive/update-resolver.ts:141-144 | the suggestions are the first four versions used, reversed |
| Resolver.ChooseLatest | src/update-interactive/update-resolver.ts:223-233 | no latest exactly when neither tag resolves; `next` is used exactly when it is at least `latest`; the result is never older than either |
| Resolver.First | src/update-interactive/update-resolver.ts:223 | `array[0] ?? null` (also line 225) |
| Resolver.PossibleVersions | src/update-interactive/update-resolver.ts:190-205 | fails exactly when the latest version or the version list of the ident was not pre-fetched |
| Resolver.PossibleVersionsDrawnFromCache | src/update-interactive/update-resolver.ts:190-205 | every version left after the three filters, and every suggestion, is one of the ident's cached versions, and each satisfies the requirement when there is one |
| Resolver.UpdateResolver.constructor | src/update-interactive/update-resolver.ts:161-183 | the caches start empty |
| Resolver.UpdateResolver.RecordLatest | src/update-interactive/update-resolver.ts:218-237 | only the first fetch of an ident records its latest version, the later of `latest` and (when enabled) `next`; the version cache is untouched |
| Resolver.UpdateResolver.RecordAllVersions | src/update-interactive/update-resolver.ts:250-254 | only the first fetch of an ident records its versions; the latest cache is untouched |
| Resolver.UpdateResolver.GetLatest | src/update-interactive/update-resolver.ts:207-216 | throws exactly when the ident was not pre-fetched, else the cached latest version |
| Resolver.UpdateResolver.GetAllVersions | src/update-interactive/update-resolver.ts:239-248 | throws exactly when the ident was not pre-fetched, else the cached versions |
| Resolver.UpdateResolver.GetPossibleVersions | src/update-interactive/update-resolver.ts:190-205 | the method returns what `PossibleVersions` describes for the current caches |
| Status.Append | src/update-interactive/ui/app/state/status.ts:57 | the list for `t` gains `q` and every other recorded requester stays; the keys grow by `t` only; no list becomes empty |
| Status.RecordInclusions | src/update-interactive/ui/app/state/status.ts:51-59 | a member of the package group gains `cur` as an includer exactly when it is off the path; exactly those members are queued |
| Status.RecordRequirements | src/update-interactive/ui/app/state/status.ts:61-92 | fails exactly when a parsed peer requirement off the path names a package that is not listed; otherwise a peer dependency gains `cur` as a requirer, and is queued, exactly when it is off the path and not already met by every installed range |
| Status.WalkStart | src/update-interactive/ui/app/state/status.ts:30-33 | the walk invariant holds with only the selected packages queued, each with the empty path, and nothing expanded |
| Status.WalkSkip | src/update-interactive/ui/app/state/status.ts:41-43 | dropping an already expanded package from the queue keeps the walk invariant |
| Status.WalkBare | src/update-interactive/ui/app/state/status.ts:44-49 | a package without metadata becomes expanded, records no edge and keeps the walk invariant |
| Status.WalkMeta | src/update-interactive/ui/app/state/status.ts:44-92 | expanding a package with metadata records exactly its edges, queues their targets along the extended path and keeps the walk invariant |
| Status.WalkDone | src/update-interactive/ui/app/state/status.ts:39 | with the queue empty every selected package is expanded, every path traces back to one, and the recorded requesters are exactly the edges of the expanded packages |
| Status.Expand | src/update-interactive/ui/app/state/status.ts:51-92 | fails exactly when a peer requirement of `cur`, off its path, is parsed and names a package that is not listed; otherwise the new requesters are the old ones plus exactly the package-group and peer edges of `cur`, and the queued packages are those edges' targets |
| Status.ThrownAt | src/update-interactive/ui/app/state/status.ts:61-69 | expanding a queued package that meets an unlisted parsed peer off its path records it with that path, which still traces back to a selected package, so the throw is one the walk meets |
| Status.Explore | src/update-interactive/ui/app/state/status.ts:29-94 | a failure is the throw of line 69 met by the walk: some reached package, whose recorded path traces back to a selected package, has a parsed peer requirement off that path on a package that is not listed; otherwise the walk is complete: every selected package is reached, every reached package's path traces back to a selected one, and the requesters are exactly the edges of the reached packages |
| Status.NotFrom | src/update-interactive/ui/app/state/status.ts:102 | a requester is kept exactly when its own package is not included |
| Status.Narrowed | src/update-interactive/ui/app/state/status.ts:102-105 | the includers that are not themselves included, or all of them when every one is; a non-empty list stays non-empty |
| Status.Narrow | src/update-interactive/ui/app/state/status.ts:96-106 | the included packages keep their keys with narrowed includers; the required ones lose every included package, so no package is both |
| Status.GetItemStatuses | src/update-interactive/ui/app/state/status.ts:21-116 | fails only on the throw of line 69 as the walk meets it (a reached package, traced back to a selected one, with an unlisted parsed peer off its path); otherwise the statuses are the complete walk's requesters after the narrowing |
| Status.IncludersHaveEdges | src/update-interactive/ui/app/state/status.ts:96-106 | every includer left after the narrowing is a reached package with a package-group edge to the target, and an included includer survives only when all of them are included |
| Status.RequiredHasCause | src/update-interactive/ui/app/state/status.ts:61-98 | a required package is reached, is not included, and has a requirer whose peer requirement on it was not already met |
| Status.StatusesExclusive | src/update-interactive/ui/app/state/status.ts:118-151 | selected, included and required exclude each other, and a package is one of them exactly when it is selected or has an includer or a requirer |
| Status.Demands | src/update-interactive/ui/app/state/status.ts:139 | the requesters' demands, one per requester, in order |
| Status.GetRequiredRange | src/update-interactive/ui/app/state/status.ts:136-145 | no requirers gives null; it fails exactly when every requirer's demand is unparsed text (the `reduce` without an initial value); otherwise the intersection of the parsed demands |
| Status.FindIntersectingStops | src/update-interactive/ui/app/state/status.ts:159 | nothing is found exactly when every suggestion parses and misses the required range; a found suggestion is the first that meets it; a failure is a first suggestion that does not parse |
| Status.FirstRange | src/update-interactive/ui/app/state/status.ts:169-176 | defined exactly on a non-empty list, as the first requester's range rendered unpretty |
| Status.GetRangeForItem | src/update-interactive/ui/app/state/status.ts:153-190 | fails with the assertion of line 180 exactly when the package is neither selected, included nor required |
| Status.RangeForItemSource | src/update-interactive/ui/app/state/status.ts:153-190 | the range shown is a suggestion meeting the required range, or the user's range of a selected package, or the first includer's range of an included one, or the first requirer's range of a required one |
| Status.SelectedShowsOwnRange | src/update-interactive/ui/app/state/status.ts:158-164 | a selected package without a required range or without suggestions shows the range the user chose |
| Misc.GetRequired | src/update-interactive/utils/misc.ts:6-12 | a present key gives its value; the error is raised exactly when the key is absent |
| Misc.SetWith | src/update-interactive/utils/misc.ts:18-24 | the set is returned unchanged when it already holds the value; otherwise its elements plus the value, an absent set counting as empty |
| Misc.SetWithAll | src/update-interactive/utils/misc.ts:14-16 | no values leave the set as it was, even absent; otherwise a set holding exactly the old elements and the values |
| Misc.SetEquals | src/update-interactive/utils/misc.ts:26-42 | true exactly when both sets hold the same elements, an absent set counting as empty |
| Misc.MapWith | src/update-interactive/utils/misc.ts:44-50 | the map is returned unchanged when it already maps the key to the value; otherwise the key maps to the value, a new key goes last and the other entries keep their order; an absent map gives the one-entry map |
| Misc.ObjectWith | src/update-interactive/utils/misc.ts:52-61 | the object is returned unchanged when the key already holds the value; otherwise the key holds the value and every other key keeps its value |
| Iterables.AreArraysEqual | src/update-interactive/utils/iterables.ts:1-14 | true exactly when the arrays are equal element by element; different lengths give false |
| Iterables.ConcatIterables | src/update-interactive/utils/iterables.ts:16-19 | the first sequence followed by the second |
| Iterables.AddAllToSet | src/update-interactive/utils/iterables.ts:21-23 | exactly the elements of the set and of the sequence |
| AppStates.RangeToString | src/update-interactive/ui/app/state/status.ts:192-201 | the defining cases: unparsed text is shown as is; a parsed range as the user wrote it when pretty, else in its normalised form (what the normalised form means is stated by the two lemmas below) |
| AppStates.RangeToStringReparses | src/update-interactive/ui/app/state/status.ts:192-201 | under node-semver's law that a formatted range parses back to its clauses, the non-pretty text of a parsed range parses back to the same clauses; the pretty text is the text the user wrote |
| AppStates.RangeToStringIgnoresRaw | src/update-interactive/ui/app/state/status.ts:192-201 | the non-pretty text depends on the clauses only, so two spellings of one range read the same |
| Semver.CompareAntisymmetric | src/update-interactive/update-resolver.ts:105 | the version order the sort relies on is antisymmetric: swapping the arguments negates the result, and only equal versions compare equal |
| Semver.CompareTransitive | src/update-interactive/update-resolver.ts:105 | the version order is transitive, so the descending sort is well defined |
| Semver.CompareStrictTransitive | src/update-interactive/utils/ranges.ts:49-75 | a strict step followed or preceded by a non-strict one stays strict, as the lower and upper bound comparisons of the intersection need |
| Semver.IdentifiersAntisymmetric | src/update-interactive/utils/ranges.ts:163 | prerelease identifier lists compare antisymmetrically and equal only when identical |
| Semver.IdentifiersTransitive | src/update-interactive/utils/ranges.ts:163 | prerelease identifier lists compare transitively |
| Reachability.ReachableStep | src/update-interactive/ui/app/state/selection.ts:261-266 | a node reachable from `x` passes reachability on to each of its demanders |
| Reachability.ReachableTarget | src/update-interactive/ui/app/state/selection.ts:255-258 | reaching a node that is a target means reaching the targets |
| Reachability.PathStaysInside | src/update-interactive/ui/app/state/selection.ts:255-267 | a walk that starts in a set closed under demanders never leaves it |
| Reachability.ClosedUnreachable | src/update-interactive/ui/app/state/selection.ts:255-267 | a closed set holding `x` and no target proves that no target is reachable from `x` |
| Reachability.FirstTarget | src/update-interactive/ui/app/state/selection.ts:256-258 | a walk to a target can be cut at its first target, so the search may stop there |
| Reachability.AgreeOutsideTargets | src/update-interactive/ui/app/state/selection.ts:256-258 | changing the demanders of targets only does not change which nodes reach a target |
| Reachability.PruneDeadEdges | src/update-interactive/ui/app/state/selection.ts:269-272 | dropping only edges toward nodes that reach no target leaves the nodes that reach a target unchanged, in both directions |
| Selection.RangesOf | src/update-interactive/ui/app/state/selection.ts:330 | exactly the parsed ranges among the demands |
| Selection.CombinedRange | src/update-interactive/ui/app/state/selection.ts:329-340 | demands that are all unparsed text combine to null |
| Selection.CombinedRangeIgnoresText | src/update-interactive/ui/app/state/selection.ts:330 | an unparsed text demand never changes the combined range |
| Selection.CombinedRangeStep | src/update-interactive/ui/app/state/selection.ts:336-339 | a further parsed range is the combined range itself when it is the first, else one more intersection with it; a null combination stays null |
| Selection.DisjointDemandsConflict | src/update-interactive/ui/app/state/selection.ts:336-339 | two parsed ranges that share no version make every list of demands that starts with them combine to null |
| Selection.DemandOn | src/update-interactive/ui/app/state/selection.ts:95-100 | the includers' demands apply when there are any, else the requirers'; nothing demanded, a null combination (conflict) and a combined range are told apart exactly |
| Selection.InclusionTakesPrecedence | src/update-interactive/ui/app/state/selection.ts:96-99 | while a package has includers, what its requirers demand makes no difference |
| Selection.AllTextConflicts | src/update-interactive/ui/app/state/selection.ts:102-107 | a package whose applying demands are all unparsed text is marked as conflicting |
| Selection.Decide | src/update-interactive/ui/app/state/selection.ts:102-139 | a conflict exactly on a null combination; already okay exactly when nothing is demanded or the first requested range is a subset of the demand; a failure exactly when that first range does not parse; waiting for suggestions exactly when they are not fetched; unchanged only when the normalised range is the stored one; otherwise the suggestions for the demanded range |
| Selection.LastOf | src/update-interactive/ui/app/state/selection.ts:135 | undefined exactly on an empty list, else its last suggestion |
| Selection.DemandOf | src/update-interactive/ui/app/state/selection.ts:170 | the parsed range when the text parses, else the text itself |
| Selection.DropDemander | src/update-interactive/ui/app/state/selection.ts:143-148 | the keys keep their order; each entry outside the exempt set that lists `ident` loses it and nothing else, every other entry stays; exactly those entries are queued, in order (also lines 179-184 and 210-215) |
| Selection.AddDemands | src/update-interactive/ui/app/state/selection.ts:165-177 | each eligible target gets an entry, new ones last; its demand from `ident` is set from the range text; exactly the targets whose demand is new or different are queued, in order (also lines 196-208) |
| Selection.RequeuedTrans | src/update-interactive/ui/app/state/selection.ts:85-217 | two steps that each queue every entry they create or change queue together every entry they create or change |
| Selection.DemandsKeys | src/update-interactive/ui/app/state/selection.ts:171 | after recording demands the entries are the old ones plus one per eligible target |
| Selection.DemandsEntries | src/update-interactive/ui/app/state/selection.ts:165-177 | after recording, every eligible target's entry holds `ident`'s demand, and no entry gains any demander other than `ident` |
| Selection.DemandsRetain | src/update-interactive/ui/app/state/selection.ts:173-174 | recording `ident`'s demands leaves every other demander's demand in place |
| Selection.DemandsQueue | src/update-interactive/ui/app/state/selection.ts:173-176 | every entry created or changed by recording demands is queued, and only entries are queued |
| Selection.DropEntries | src/update-interactive/ui/app/state/selection.ts:143-148 | after dropping, no entry outside the exempt set lists `ident`, exempt entries are untouched, and every other demand stays |
| Selection.DropQueue | src/update-interactive/ui/app/state/selection.ts:143-148 | every entry that loses `ident` is queued, and only entries are queued |
| Propagation.SettleKeeps | src/update-interactive/ui/app/state/selection.ts:86-140 | settling one package keeps the worklist invariant: entries and queued packages are items, no package includes itself, user selections keep their range, and the okay, metadata and suggestion sets hold what their names say |
| Propagation.SettleSelected | src/update-interactive/ui/app/state/selection.ts:86-92 | a user-selected package keeps its whole entry (range, suggestions, valid range, conflict flag and demanders), leaves the okay set and the metadata set, and keeps the invariant |
| Propagation.SettleDecided | src/update-interactive/ui/app/state/selection.ts:94-140 | an unselected package's entry is its old entry with exactly the fields its decision sets replaced (every other field, suggestions and valid range included, kept), it joins the okay or the suggestion list as decided, stops exactly on a conflict, a missing fetch or an unchanged range, and keeps the invariant |
| Propagation.AwaitNotFetched | src/update-interactive/ui/app/state/selection.ts:121-124 | only a package whose suggestions are not fetched yet waits for them |
| Propagation.Settle | src/update-interactive/ui/app/state/selection.ts:86-140 | fails exactly when an unselected package's first requested range does not parse while something is demanded; otherwise a user-selected package's entry stays whole, an unselected one's entry is the old entry with exactly the decided fields replaced, and the invariant holds |
| Propagation.Apply | src/update-interactive/ui/app/state/selection.ts:102-139 | each case gives the whole new entry: a conflict sets the flag and clears the valid range, keeping selection and suggestions; already okay clears selection, suggestions and valid range and joins the okay list; a missing fetch and an unchanged range only clear the flag, the missing fetch joining the suggestion list; new suggestions are stored with the strongest as the selection and the demanded range as the valid range, leaving the okay list; `stop` exactly on the decisions that end in a continue |
| Propagation.RecordSteps | src/update-interactive/ui/app/state/selection.ts:165-184 | setting the demands and then dropping the rest leaves `ident` demanding exactly the eligible targets, as their texts say, and every other demand and field as it was (also lines 196-215) |
| Propagation.RequeueSteps | src/update-interactive/ui/app/state/selection.ts:165-184 | every entry created or whose demanders changed in either step is queued, and only entries are queued (also lines 196-215) |
| Propagation.Record | src/update-interactive/ui/app/state/selection.ts:165-184 | the entries are rewired to `ident`'s new demands and nothing else about them changes; what changed is queued; no entry disappears (also lines 196-215) |
| Propagation.LinkPeers | src/update-interactive/ui/app/state/selection.ts:162-187 | with peer dependencies, the requirers are rewired to them among the items; without, the demanders are untouched; `hasMigrations` is set from the manifest; what changed is queued |
| Propagation.LinkGroup | src/update-interactive/ui/app/state/selection.ts:189-216 | with a package group, the inclusions are rewired to it among the items other than `ident`; without, they are untouched; what changed is queued |
| Propagation.Link | src/update-interactive/ui/app/state/selection.ts:158-216 | only the two maps and the queue change: peers and package group are linked as the manifest says and every changed entry is queued |
| Propagation.DropAll | src/update-interactive/ui/app/state/selection.ts:142-150 | a package left without a range demands nothing in either map, nothing else about an entry changes, and each entry it demanded is queued |
| Propagation.NoSelfInclusion | src/update-interactive/ui/app/state/selection.ts:196-199 | a package never includes itself, since `ident` is never among its own group targets |
| Propagation.LinkKeeps | src/update-interactive/ui/app/state/selection.ts:158-216 | linking keeps the worklist invariant |
| Propagation.DropKeeps | src/update-interactive/ui/app/state/selection.ts:142-150 | dropping keeps the worklist invariant |
| Propagation.Advance | src/update-interactive/ui/app/state/selection.ts:142-216 | without a selected range the package stops demanding anything; with one whose manifest is not fetched it joins the metadata set and nothing else changes; otherwise it is linked to its manifest; the invariant holds |
| SelectionUpdate.Seed | src/update-interactive/ui/app/state/selection.ts:58-75 | the initial packages are the user-selected ones in item order, without repeats; they are the first queue and each has an entry holding exactly its range; nothing else is known and the worklist invariant holds |
| SelectionUpdate.VerdictFailure | src/update-interactive/ui/app/state/selection.ts:111 | processing fails only on an unselected package whose first requested range does not parse |
| SelectionUpdate.RunPass | src/update-interactive/ui/app/state/selection.ts:82-217 | one pass is the packages of the old queue processed one after the other in queue order, each settled and, unless it stopped at a `continue`, advanced; it keeps the worklist invariant and fails only at a queued package whose first requested range does not parse |
| SelectionUpdate.Process | src/update-interactive/ui/app/state/selection.ts:86-216 | processing one package settles it and, unless that ended at a `continue`, advances it; it fails only on a bad item |
| SelectionUpdate.ChainSnoc | src/update-interactive/ui/app/state/selection.ts:85-217 | a trace through the first n queued packages extended by one processing step is a trace through the first n + 1 |
| SelectionUpdate.InvClearQueue | src/update-interactive/ui/app/state/selection.ts:82-83 | emptying the queue at the start of a pass keeps the worklist invariant |
| SelectionUpdate.TracedPass | src/update-interactive/ui/app/state/selection.ts:82-217 | a trace through the whole queue from the emptied worklist is a pass |
| SelectionUpdate.LinkedSnoc | src/update-interactive/ui/app/state/selection.ts:73-80 | a sequence of passes extended by one more pass is still a sequence of passes |
| SelectionUpdate.RunPasses | src/update-interactive/ui/app/state/selection.ts:73-80 | at most 20 passes run, each one pass from the state before, every pass but the last starting from a queue that was not empty; the result keeps the invariant, and its queue is empty unless the twentieth pass ended the loop |
| SelectionUpdate.DeleteOkay | src/update-interactive/ui/app/state/selection.ts:222-225 | both maps lose exactly the packages already okay, the other keys keeping their order |
| SelectionUpdate.DeleteWhere | src/update-interactive/ui/app/state/selection.ts:227-237 | exactly the entries the test holds of are deleted, the others keeping their order, although the visit deletes as it goes |
| SelectionUpdate.PrunedTwice | src/update-interactive/ui/app/state/selection.ts:220-237 | deleting one set of keys and then another is deleting both at once |
| SelectionUpdate.Prune | src/update-interactive/ui/app/state/selection.ts:220-237 | the inclusions lose the packages already okay and those nobody demands; the selected and required entries lose the packages already okay and those nobody demands or includes and that have no truthy user range |
| SelectionUpdate.FillInclusionRanges | src/update-interactive/ui/app/state/selection.ts:283-285 | every inclusion keeps its place and demanders, and its valid range becomes the combination of its demands |
| SelectionUpdate.MetaFetchingOut | src/update-interactive/ui/app/state/selection.ts:289-293 | holds exactly the packages awaiting metadata; the previous set itself when its contents are the same; a new set only when not empty |
| SelectionUpdate.SetIntersect | src/update-interactive/ui/app/state/selection.ts:299-302 | undefined stays undefined; otherwise exactly the elements that still have an entry |
| SelectionUpdate.InitialSelections | src/update-interactive/ui/app/state/selection.ts:60-67 | a package is initial exactly when the user selected it |
| SelectionUpdate.StripFailure | src/update-interactive/ui/app/state/selection.ts:233-249 | some initial package has no entry left exactly when a user-selected package with an empty range was pruned, which makes line 249 throw |
| SelectionUpdate.KeptIgnoresRanges | src/update-interactive/ui/app/state/selection.ts:283-285 | filling in the inclusion ranges changes no demander, so the loops kept are the same |
| SelectionUpdate.Finish | src/update-interactive/ui/app/state/selection.ts:220-304 | fails exactly when a user-selected package with an empty range was pruned; otherwise the state is assembled from the pruned, stripped and filled-in maps and everything else is carried over (with the corrected walk of Findings row 3) |
| SelectionUpdate.FrameUpdated | src/update-interactive/ui/app/state/selection.ts:289-304 | the items and what was fetched stay; the packages awaiting metadata or suggestions are items not fetched yet, besides those already awaited, which stay |
| SelectionUpdate.SetWithAllElements | src/update-interactive/ui/app/state/selection.ts:303 | adding values to an optional set keeps its elements and adds nothing but the values |
| SelectionUpdate.SelectionsUpdated | src/update-interactive/ui/app/state/selection.ts:239-279 | every user-selected package keeps an entry with exactly its range, each demand left on it closes no loop back to it only, and only items have entries (with the corrected walk of Findings row 3) |
| SelectionUpdate.InclusionsUpdated | src/update-interactive/ui/app/state/selection.ts:241-285 | no user-selected package is included, and every inclusion left is a demanded item carrying the combination of its demands |
| SelectionUpdate.UpdateSelection | src/update-interactive/ui/app/state/selection.ts:43-304 | fails only on an unselected, demanded package whose requested range does not parse or on a user-selected empty range; otherwise the new state keeps the frame, the user's selections and the inclusions as stated above (with the corrected walk of Findings row 3) |
| LoopStripping.Demanders | src/update-interactive/ui/app/state/selection.ts:261-264 | exactly the package's requirers and includers |
| LoopStripping.WalkStep | src/update-interactive/ui/app/state/selection.ts:255-266 | expanding the next package of the walk keeps the walk invariant: what was seen is reachable, without repeats, and every expanded package is no target and has its demanders seen |
| LoopStripping.WalkExhausted | src/update-interactive/ui/app/state/selection.ts:255-267 | a walk that expanded everything it saw without meeting a target proves that no target is reachable |
| LoopStripping.ReachesTarget | src/update-interactive/ui/app/state/selection.ts:252-267 | the walk over the growing set stops with true exactly when a target is reachable from the start |
| LoopStripping.GraphAgreesExcept | src/update-interactive/ui/app/state/selection.ts:261-264 | two states whose demanders agree everywhere but at `p` give demand graphs that agree everywhere but at `p` |
| LoopStripping.ReachesAgree | src/update-interactive/ui/app/state/selection.ts:255-258 | whether a target is reachable does not depend on the demanders of targets |
| LoopStripping.DropDeadDemander | src/update-interactive/ui/app/state/selection.ts:269-272 | removing from `p` a demander that reaches no target changes, for no package, whether it reaches a target |
| LoopStripping.KeepStep | src/update-interactive/ui/app/state/selection.ts:269 | keeping a demander that reaches another selected package keeps the invariant of the strip |
| LoopStripping.DropFrame | src/update-interactive/ui/app/state/selection.ts:269-272 | dropping a demander changes only the demanders of `p` |
| LoopStripping.DropReach | src/update-interactive/ui/app/state/selection.ts:269-272 | dropping a demander that reaches no other selected package keeps the invariant of the strip |
| LoopStripping.StripSelected | src/update-interactive/ui/app/state/selection.ts:249-278 | only the entry of `p` changes; a demander stays exactly when it reaches another selected package in the resulting state; with nothing dropped the entry is unchanged, otherwise its valid range is recombined from the demands left, or undefined when none are (with the corrected walk of Findings row 3) |
| LoopStripping.FinishStrip | src/update-interactive/ui/app/state/selection.ts:275-278 | after the last demander the valid range is recombined exactly when something was dropped, and the strip's postcondition holds |
| LoopStripping.RecombinedKept | src/update-interactive/ui/app/state/selection.ts:275-278 | recombining the range changes no demanders, so which ones are kept is the same |
| LoopStripping.RecombinedRange | src/update-interactive/ui/app/state/selection.ts:276-277 | once a demander is gone the valid range is the combination of those left, or undefined when none are |
| LoopStripping.SameDemandersSameKept | src/update-interactive/ui/app/state/selection.ts:276-277 | changing fields other than the demanders changes nothing about which demanders are kept |
| LoopStripping.LoopsFrameStep | src/update-interactive/ui/app/state/selection.ts:241-279 | stripping the next selected package deletes its inclusion and changes no entry of an unselected package |
| LoopStripping.LoopsKeptStep | src/update-interactive/ui/app/state/selection.ts:241-279 | stripping the next selected package does not disturb what was decided for the earlier ones, since it only changes the graph at a target of theirs |
| LoopStripping.StripAgrees | src/update-interactive/ui/app/state/selection.ts:244-272 | stripping `p` changes the demand graph at `p` only |
| LoopStripping.StripLoops | src/update-interactive/ui/app/state/selection.ts:241-279 | fails exactly when a selected package has lost its entry to the pruning; otherwise the selected packages' inclusions are gone, unselected entries are unchanged, and each selected package keeps exactly the demanders that reach another selected package in the final state (with the corrected walk of Findings row 3) |
| LoopStripping.LoopsDone | src/update-interactive/ui/app/state/selection.ts:241-279 | once every selected package is stripped, the final maps satisfy the postcondition of the stripping |
| LoopStripping.ShadowedIdentKeepsLoop | src/update-interactive/ui/app/state/selection.ts:251-267 | with `core` selected and including `common`, which requires `core`: as written the demand of `common` on `core` is kept, though it closes a loop back to `core` only; the intended test strips it |
| LoopStripping.LoopDemand | src/update-interactive/ui/app/state/selection.ts:261-264 | in that example `core` is a demander of `common` and `common` demands `core` |
| Confirm.WithSelectorInnermost | src/update-interactive/ui/app/page-confirm.tsx:235-265 | rewriting a range puts the new selector innermost, a second rewrite forgets the first, and writing back the selector that was read gives the range back |
| Confirm.InnermostDetermines | src/update-interactive/ui/app/page-confirm.tsx:235-265 | two ranges that agree on their innermost selector and on everything around it are the same range, so only the selector changes |
| Confirm.PlainKeepsProtocol | src/update-interactive/ui/app/page-confirm.tsx:240-246 | a range that is not a `patch:` keeps its protocol, source and parameters, its selector being what is read and what is replaced |
| Confirm.RangeTexts | src/update-interactive/ui/app/page-confirm.tsx:130 | one text per requester, its range rendered unpretty, in order |
| Confirm.DistinctRanges | src/update-interactive/ui/app/page-confirm.tsx:130 | the texts without repeats, holding exactly the texts of the requesters |
| Confirm.SeveralRangesIff | src/update-interactive/ui/app/page-confirm.tsx:129-138 | the note lists ranges exactly when two requesters ask for differently written ranges, and then lists exactly their texts (also lines 152-161) |
| Confirm.FirstDemand | src/update-interactive/ui/app/page-confirm.tsx:127 | defined exactly on a non-empty list, as its first requester's range |
| Confirm.SelectionMeets | src/update-interactive/ui/app/page-confirm.tsx:117 | fails exactly when the selected text is no range; otherwise whether it shares a version with the required range |
| Confirm.SelectedTarget | src/update-interactive/ui/app/page-confirm.tsx:115-120 | the user's range is the target exactly when the package is selected and the range fits the required one; an unselected package has no such target |
| Confirm.SuggestedTarget | src/update-interactive/ui/app/page-confirm.tsx:144-146 | nothing without a required range or without suggestions; a failure only on a suggestion that is no range |
| Confirm.Target | src/update-interactive/ui/app/page-confirm.tsx:113-166 | throws `Unexpected updated item` exactly for a package that is not selected and has neither includers nor requirers |
| Confirm.TargetSelected | src/update-interactive/ui/app/page-confirm.tsx:115-120 | a selected range that fits the required range is the target, with no note |
| Confirm.TargetIncluded | src/update-interactive/ui/app/page-confirm.tsx:122-139 | otherwise an included package targets its first includer's range, noting several included ranges; it fails exactly on an empty includer list |
| Confirm.TargetRequired | src/update-interactive/ui/app/page-confirm.tsx:140-162 | without includers the target is the first suggestion meeting the required range, else the first requirer's range, noting several required ranges |
| Confirm.SuggestedTargetMeets | src/update-interactive/ui/app/page-confirm.tsx:144-146 | a suggested target is on the package's list of suggestions and meets its required range |
| Confirm.Resolution | src/update-interactive/ui/app/page-confirm.tsx:171-185 | found exactly when the descriptor, as written or with the default protocol, has a stored resolution; as written wins; the result is a stored locator |
| Confirm.InstalledLocators | src/update-interactive/ui/app/page-confirm.tsx:169-188 | fails exactly when some installed descriptor has no resolution; otherwise exactly the resolved locators, without repeats |
| Confirm.InstalledNote | src/update-interactive/ui/app/page-confirm.tsx:190-199 | a single note exactly when more than one locator is installed, listing each one's version or `no version` |
| Confirm.InstalledVersions | src/update-interactive/ui/app/page-confirm.tsx:201-205 | fails exactly when a locator has no stored package; otherwise exactly the versions of the packages that have one |
| Confirm.LowestIndex | src/update-interactive/ui/app/page-confirm.tsx:201-206 | the first position of a version no greater than any other |
| Confirm.Lowest | src/update-interactive/ui/app/page-confirm.tsx:201-206 | nothing for no versions, the only one for one; for several, a failure exactly when one does not parse, else the first of the lowest |
| Confirm.MigrationTarget | src/update-interactive/ui/app/page-confirm.tsx:216 | an exact version is its own target; otherwise a failure exactly when the text is no range, else the least version the range admits, if any |
| Confirm.UpdateFor | src/update-interactive/ui/app/page-confirm.tsx:220-230 | defined exactly when the new range simplifies; the old range as written, and the simplified new range in the old range's style put back inside its wrappers (with the corrected clause simplification of Findings row 1) |
| Confirm.Updates | src/update-interactive/ui/app/page-confirm.tsx:219-231 | defined exactly when there is nothing to update or the new range simplifies; one entry per requested descriptor, each its update |
| Confirm.UpdatesPut | src/update-interactive/ui/app/page-confirm.tsx:219-231 | adding one more descriptor's update keeps every entry the update of its descriptor |
| Confirm.GetItemUpdateCollection | src/update-interactive/ui/app/page-confirm.tsx:99-233 | fails when the target does; otherwise the collection for the target: its notes are the target's then the installed one, it migrates exactly when the manifest has migrations, and it updates exactly the requested descriptors |
| Confirm.MigrationFrom | src/update-interactive/ui/app/page-confirm.tsx:201-218 | a migration starts from the first of the lowest installed versions, and from none (`undefined`) when no installed version is known |
| Confirm.ShownIdents | src/update-interactive/ui/app/page-confirm.tsx:41-46 | exactly the listed packages that are selected, required or included |
| Confirm.Collections | src/update-interactive/ui/app/page-confirm.tsx:47 | one collection per shown package, in order; fails exactly when some package's collection fails |
| Confirm.UpdateItems | src/update-interactive/ui/app/page-confirm.tsx:38-47 | nothing while manifests are queued for fetching; otherwise the collections of the shown packages |
| Confirm.NewRanges | src/update-interactive/ui/app/page-confirm.tsx:63-65 | the same descriptors in the same order, each with its new range only |
| Confirm.CommittedKeys | src/update-interactive/ui/app/page-confirm.tsx:56-68 | the collection handed on holds one entry per package that has a collection |
| Confirm.CommittedLast | src/update-interactive/ui/app/page-confirm.tsx:56-68 | the entry of a package is made from its last collection |
| Confirm.ConfirmItems | src/update-interactive/ui/app/page-confirm.tsx:38-47 | the page's list: nothing while manifests are queued; otherwise what `UpdateItems` gives for the statuses, which are those the breadth-first walk over the item map explores and then narrows; a failure is an unlisted peer requirement met by the walk or a failure of `UpdateItems` |
| Command.Manifest.constructor | src/commands/ng/update-interactive.tsx:216 | a workspace manifest holding the given regular, dev and peer dependency maps |
| Command.Manifest.ApplyUpdates | src/commands/ng/update-interactive.tsx:211-224 | each of the three dependency maps becomes its updated version, in place; the flag says whether any dependency had a new range |
| Command.RecordRequested | src/commands/ng/update-interactive.tsx:42-51 | the loop over one dependency type builds exactly what the specification function does: every descriptor not resolved by a workspace set, with what is installed for it |
| Command.RecordPeers | src/commands/ng/update-interactive.tsx:54-65 | the peer loop builds exactly what the specification function does: descriptors not resolved by a workspace and not yet present are added with nothing installed |
| Command.GetAllDependencies | src/commands/ng/update-interactive.tsx:32-69 | the map built is the specification function of what the manifests request |
| Command.AddRequestedEntries | src/commands/ng/update-interactive.tsx:42-51 | recording adds exactly the descriptors not resolved by a workspace, each paired with what is installed for it; the others stay |
| Command.AddPeersEntries | src/commands/ng/update-interactive.tsx:54-65 | recording peers adds exactly the descriptors not resolved by a workspace, keeping an existing entry and otherwise pairing them with nothing |
| Command.AddWorkspaceEntries | src/commands/ng/update-interactive.tsx:40-66 | one workspace's regular and dev dependencies override, its peers only fill in |
| Command.InstalledForListed | src/commands/ng/update-interactive.tsx:47-50 | something is installed for a descriptor only if some workspace lists it as a regular or dev dependency |
| Command.AllDependenciesKeys | src/commands/ng/update-interactive.tsx:40-65 | a descriptor is collected exactly when some workspace requests it and no workspace resolves it |
| Command.AllDependenciesInstalled | src/commands/ng/update-interactive.tsx:47-63 | each collected descriptor is paired with what the last workspace listing it as a regular or dev dependency has installed, and with nothing when only peers name it |
| Command.AddAllLastConcat | src/commands/ng/update-interactive.tsx:47 | adding two lists in turn to an insertion-ordered map adds their concatenation |
| Command.AddRequestedOrder | src/commands/ng/update-interactive.tsx:47 | recording regular or dev dependencies appends the new descriptors to the key order |
| Command.AddPeersOrder | src/commands/ng/update-interactive.tsx:59-64 | recording peers appends the new descriptors to the key order |
| Command.AllDependenciesOrder | src/commands/ng/update-interactive.tsx:190 | the collected descriptors are listed in the order first met: workspace by workspace, regular, dev, then peer dependencies |
| Command.Untagged | src/commands/ng/update-interactive.tsx:152-154 | the range as is, or the version its dist-tag names when that is not empty |
| Command.MinSatisfying | src/commands/ng/update-interactive.tsx:162 | nothing exactly when no text is an admitted version; otherwise one of the texts, admitted |
| Command.MinSatisfyingLeast | src/commands/ng/update-interactive.tsx:162 | the text found is no higher than any admitted text |
| Command.DescriptorManifest | src/commands/ng/update-interactive.tsx:138-174 | throws exactly when the package's metadata was not fetched; otherwise one of its version manifests or the not-found placeholder |
| Command.DescriptorManifestOrder | src/commands/ng/update-interactive.tsx:149-171 | the manifest of the version the untagged range names; else of the least version it admits; else the placeholder |
| Command.Updated | src/commands/ng/update-interactive.tsx:218-220 | the same package, with the new range when the collection has one, else unchanged |
| Command.Applied | src/commands/ng/update-interactive.tsx:217-223 | the same packages in the same order, each updated |
| Command.AppliedUnchanged | src/commands/ng/update-interactive.tsx:217-223 | a map with no new range in the collection is left as it was |
| Command.ApplyTo | src/commands/ng/update-interactive.tsx:217-223 | the loop leaves exactly the updated map, and the flag is set exactly when some dependency had a new range |
| Command.AppliedByIndex | src/commands/ng/update-interactive.tsx:217-223 | a map updated position by position is the updated map, and the flag is the existence of a new range |
| Command.AppliedMapsUnchanged | src/commands/ng/update-interactive.tsx:211-224 | manifests without any new range are left as they were |
| Command.ApplyUpdateCollection | src/commands/ng/update-interactive.tsx:208-229 | every workspace's manifest becomes its updated version; the flag says whether any dependency had a new range; without one every manifest is as it was and the command stops before installing |
| Command.CommitLines | src/commands/ng/update-interactive.tsx:245-249 | the four header lines, then one `- ident` line per entry, in order |
| Command.MigrationArgsRoundTrip | src/commands/ng/update-interactive.tsx:289-297 | read position by position, the arguments of an `ng update` run give back exactly the package, the migration (with an `undefined` in place of a missing `from` version) and the commit choice |
| Command.MigrationRuns | src/commands/ng/update-interactive.tsx:255-297 | as many runs as entries with a migration, in collection order: the k-th run is that of the k-th such entry, with its arguments |
| Command.MigrationRunsMembers | src/commands/ng/update-interactive.tsx:255-257 | every entry with a migration has its run, and every run is that of such an entry |
| Reducer.WithRange | src/update-interactive/ui/app/state/reducer.ts:16-22 | fails exactly when the item is not in the map (the required lookup throws); otherwise only that item's selected range changes, null clearing it, and a well-formed map stays well formed |
| Reducer.Pending | src/update-interactive/ui/app/state/reducer.ts:37-46 | the idents still being fetched are exactly those that were and did not arrive, and an empty set becomes undefined |
| Reducer.RemoveArrived | src/update-interactive/ui/app/state/reducer.ts:37-46 | the deleting loop leaves exactly the pending set (also lines 51-60) |
| Reducer.FetchRequested | src/update-interactive/ui/app/state/reducer.ts:29-33 | only the set of suggestions being fetched changes, and it gains the ident |
| Reducer.ReduceAppState | src/update-interactive/ui/app/state/reducer.ts:13-65 | a new range for an unknown item fails, else that item changes and the selection is worked out again; a request for fetched suggestions changes nothing, any other marks them as being fetched; arrived suggestions or manifests become fetched, no longer pending, and the selection is worked out again |
| Hook.OfIdentMembers | src/update-interactive/ui/app/state/hook.ts:25-27 | a package's group holds exactly the dependencies on that package |
| Hook.IdentsMembers | src/update-interactive/ui/app/state/hook.ts:23-27 | the packages depended on are listed once each, and exactly those |
| Hook.GroupedStep | src/update-interactive/ui/app/state/hook.ts:26 | pushing one more dependency onto its package's list keeps every list the group of the dependencies seen so far |
| Hook.EmptyOfIdent | src/update-interactive/ui/app/state/hook.ts:26 | a package not yet depended on has an empty group, so the defaulted array starts empty |
| Hook.GroupByIdent | src/update-interactive/ui/app/state/hook.ts:23-27 | the loop files every dependency under its package: the keys are the packages depended on and each list is that package's group, in order |
| Hook.Requested | src/update-interactive/ui/app/state/hook.ts:35 | the requested descriptors of a group, one per dependency, in order |
| Hook.Installed | src/update-interactive/ui/app/state/hook.ts:38-40 | a descriptor is listed exactly when some dependency of the group has it installed |
| Hook.Hashes | src/update-interactive/ui/app/state/hook.ts:10 | the hashes of the items, in item order |
| Hook.GroupIdents | src/update-interactive/ui/app/state/hook.ts:19-56 | one item per package depended on, in strictly increasing name order, each holding its package's requested and installed descriptors sorted by maximum version, nothing selected or fetched (by the corrected sortByMaxVersion of Findings row 2) |
| Hook.NamedItems | src/update-interactive/ui/app/state/hook.ts:29-33 | items built from the sorted package names keep the names' order and cover exactly the packages |
| Hook.ItemsOf | src/update-interactive/ui/app/state/hook.ts:33-55 | one item per group, in order |
| Hook.ItemOfGroup | src/update-interactive/ui/app/state/hook.ts:33-54 | the item of a package's group carries that package's hash, its sorted requested and installed descriptors, and at least one requested descriptor (by the corrected sortByMaxVersion of Findings row 2) |
| Hook.TextConsistent | src/update-interactive/ui/app/state/hook.ts:29-31 | comparing names as text is antisymmetric and transitive, so the sort is well defined |
| Hook.SortedNames | src/update-interactive/ui/app/state/hook.ts:29-31 | sorting the distinct names by text orders them strictly |
| Hook.DistinctPermutation | src/update-interactive/ui/app/state/hook.ts:29 | sorting a list without repetitions yields a list without repetitions |
| Hook.DistinctCount | src/update-interactive/ui/app/state/hook.ts:29 | in a list without repetitions each value occurs at most once |
| Hook.Entries | src/update-interactive/ui/app/state/hook.ts:11 | each item paired with its own hash, in item order |
| Hook.InitAppStateMap | src/update-interactive/ui/app/state/hook.ts:9-17 | for items with distinct hashes, the map holds each item under its own hash in item order and nothing else, and nothing is selected, included, fetched or being fetched |
| Hook.InitialWellFormed | src/update-interactive/ui/app/state/hook.ts:58-66 | the state the reducer starts from files every item under its own hash, each with a requested descriptor |
| ListInput.ModOnce | src/update-interactive/ui/hooks/use-list-input.ts:29 | below twice the length, the remainder is the value itself or the value less the length, so `(length + i - 1) % length` and `(i + 1) % length` never go out of range |
| ListInput.Step | src/update-interactive/ui/hooks/use-list-input.ts:29 | one step moves to the neighbouring index, wrapping from the first to the last and from the last to the first (also line 33) |
| ListInput.Walk | src/update-interactive/ui/hooks/use-list-input.ts:28-34 | any number of steps stays inside the list |
| ListInput.WalkClosed | src/update-interactive/ui/hooks/use-list-input.ts:28-34 | k steps (k at most the length) land at index plus or minus k, wrapped around once |
| ListInput.WalkRound | src/update-interactive/ui/hooks/use-list-input.ts:30 | a walk of at most one full round is back at its start exactly after the full round, so the loop's `newIndex !== index` test stops it after one round |
| ListInput.WalkCovers | src/update-interactive/ui/hooks/use-list-input.ts:28-34 | every other index is reached by some walk shorter than a full round |
| ListInput.Iterations | src/update-interactive/ui/hooks/use-list-input.ts:28-34 | the number of steps the do-while takes: the first step that lands on an enabled item or back on the start, never more than the length |
| ListInput.Target | src/update-interactive/ui/hooks/use-list-input.ts:28-34 | the index the loop ends on is in the list and, when it differs from the start, is enabled |
| ListInput.TargetStays | src/update-interactive/ui/hooks/use-list-input.ts:28-37 | the index stays put exactly when every other item is disabled |
| ListInput.SkipsOnlyDisabled | src/update-interactive/ui/hooks/use-list-input.ts:30 | every index the loop passes over before stopping is disabled (also line 34) |
| ListInput.HandleInput | src/update-interactive/ui/hooks/use-list-input.ts:23-40 | with neither key nothing is reported; on an empty list a key press throws; from a listed index minus takes precedence over plus and a change is reported exactly when the loop ends on another index; from an unlisted value the loop ends on the first enabled entry it meets and never ends when there is none; any reported index is enabled |
| ListInput.EnabledTarget | src/update-interactive/ui/hooks/use-list-input.ts:28-34 | from an unlisted value the loop ends on an index in the list whose entry is enabled |
| ListInput.EnabledTargetPlus | src/update-interactive/ui/hooks/use-list-input.ts:31-34 | going forward from an unlisted value selects the first enabled entry: every entry before it is disabled |
| ListInput.SearchLoop | src/update-interactive/ui/hooks/use-list-input.ts:28-34 | the do-while from an unlisted value ends on the index the specification function names |
| ListInput.FirstStepFromNowhere | src/update-interactive/ui/hooks/use-list-input.ts:29 | from index -1 the first step lands where one step from the last index would (also line 33) |
| ListInput.Loop | src/update-interactive/ui/hooks/use-list-input.ts:28-30 | the do-while ends on the index the specification function names (also lines 32-34) |
| SelectList.IndexOf | src/update-interactive/ui/elements/select-list.tsx:55 | absent exactly when the value is not in the list; otherwise the first position holding it |
| SelectList.Clamp | src/update-interactive/ui/elements/select-list.tsx:62-66 | the start is moved to the nearest position where the whole window fits, and left alone when it already fits |
| SelectList.ActiveVisible | src/update-interactive/ui/elements/select-list.tsx:55-70 | when the active item is in the list, the window shown contains it |
| SelectList.ActiveCentred | src/update-interactive/ui/elements/select-list.tsx:57-60 | away from the ends of the list, the active item has exactly `floor((numberOfItems - 1) / 2)` items above it |
| SelectList.StartStable | src/update-interactive/ui/elements/select-list.tsx:56 | without an active item the remembered start is reused, and reusing it again changes nothing |
| SelectList.ScrollWindow.constructor | src/update-interactive/ui/elements/select-list.tsx:49 | the remembered start begins at 0 |
| SelectList.ScrollWindow.VisibleItems | src/update-interactive/ui/elements/select-list.tsx:50-71 | a list that fits is shown whole and the remembered start kept; otherwise a window of `numberOfItems` items from the clamped start, which is remembered, and that window holds the selected value (or the first one when none is selected) |
| PageSelect.Items | src/update-interactive/ui/app/page-select.tsx:57 | one item per identifier of the item order, the item filed under it |
| PageSelect.OneList | src/update-interactive/ui/app/page-select.tsx:212-222 | an identifier is updatable exactly when it is neither selected-or-required nor included, and never both of the latter |
| PageSelect.FilterPartition | src/update-interactive/ui/app/page-select.tsx:59-66 | the three filters split any list of items between them |
| PageSelect.ListsPartition | src/update-interactive/ui/app/page-select.tsx:59-66 | every item lands in exactly one of the three lists |
| PageSelect.FirstAfter | src/update-interactive/ui/app/page-select.tsx:194-196 | -1 exactly when no name sorts after the stored one; otherwise the first item whose name sorts after it |
| PageSelect.ActiveIndex | src/update-interactive/ui/app/page-select.tsx:197-207 | the index chosen for a stored name lies inside the non-empty list |
| PageSelect.ActiveIndexNearest | src/update-interactive/ui/app/page-select.tsx:194-207 | in a name-sorted list, the item chosen is the last one not sorting after the stored name, or the first when all sort after it |
| PageSelect.AfterFirstAfter | src/update-interactive/ui/app/page-select.tsx:194-196 | in a name-sorted list, everything after an item sorting after the name sorts after it too |
| PageSelect.ActiveIndexStays | src/update-interactive/ui/app/page-select.tsx:180-210 | an item still in its list stays the active one |
| PageSelect.GetActiveIdent | src/update-interactive/ui/app/page-select.tsx:180-210 | nothing exactly for an empty list; the first item without a stored identifier; otherwise the item nearest the stored one by name |
| PageSelect.FetchRequestedOnce | src/update-interactive/ui/app/page-select.tsx:88-96 | asking for the active item's suggestions changes the state, and after the reducer records it the page does not ask again |
| PageSelect.Holding | src/update-interactive/ui/app/page-select.tsx:78-80 | the list found holds the identifier |
| PageSelect.HoldingFinds | src/update-interactive/ui/app/page-select.tsx:78-80 | an item of the item order is found in the list named, and in no other, so the non-null assertion holds |
| PageSelect.FollowAsWritten | src/update-interactive/ui/app/page-select.tsx:73-86 | as written, the effect switches to the list holding the stored item but records there the identifier that replaced it in the old list; the list state stays consistent |
| PageSelect.ActiveIdentKnown | src/update-interactive/ui/app/page-select.tsx:180-210 | the active identifier of a list is that of one of the page's items |
| PageSelect.Follow | src/update-interactive/ui/app/page-select.tsx:73-86 | corrected: switches to the list holding the stored item and records that item there; the list state stays consistent |
| PageSelect.SelectPage.constructor | src/update-interactive/ui/app/page-select.tsx:52-71 | the updatable list is active, no list has an identifier recorded, and the stored identifier is the updatable list's active one |
| PageSelect.SelectPage.UpdateActiveItem | src/update-interactive/ui/app/page-select.tsx:120-126 | the item chosen becomes the stored identifier and the active list's recorded one; nothing else changes |
| PageSelect.SelectPage.ChangeList | src/update-interactive/ui/app/page-select.tsx:98-109 | the new list becomes active and its active identifier is stored; the recorded identifiers stay |
| PageSelect.SelectPage.FollowMovedItem | src/update-interactive/ui/app/page-select.tsx:73-86 | the list state becomes the corrected follow of the stored identifier, which is kept |
| PageSelect.FollowLands | src/update-interactive/ui/app/page-select.tsx:73-86 | with items in name order, the corrected effect makes the stored item the active one of the active list |
| PageSelect.FilterSorted | src/update-interactive/ui/app/page-select.tsx:59-66 | a filtered list keeps the name order of the items |
| PageSelect.MovedItems | src/update-interactive/ui/app/page-select.tsx:57 | the three-item screen `a`, `aa`, `b` lists its items in that order |
| PageSelect.MovedMembership | src/update-interactive/ui/app/page-select.tsx:212-222 | on that screen `a` is updatable while `aa` and `b`, with chosen ranges, are selected |
| PageSelect.MovedUpdatable | src/update-interactive/ui/app/page-select.tsx:62 | the updatable list holds only `a` |
| PageSelect.MovedSelected | src/update-interactive/ui/app/page-select.tsx:64 | the selected list holds `aa` and `b` |
| PageSelect.SelectedOfThree | src/update-interactive/ui/app/page-select.tsx:64 | of three items, only the two selected are in the selected list, in order |
| PageSelect.MovedActive | src/update-interactive/ui/app/page-select.tsx:180-210 | with `b` recorded for the updatable list, that list now shows `a` as active |
| PageSelect.MovedFollowed | src/update-interactive/ui/app/page-select.tsx:180-210 | with `a` recorded for the selected list, that list shows `aa` as active |
| PageSelect.FollowAsWrittenMisses | src/update-interactive/ui/app/page-select.tsx:73-86 | as written, after `b` moves to the selected list the page lands on `aa` instead of `b` |
| RangeSelector.ValidRangeOf | src/update-interactive/ui/app/range-selector.tsx:108 | the selection's valid range when it has one, else the inclusion's, else none |
| RangeSelector.Disabled | src/update-interactive/ui/app/range-selector.tsx:109 | without a valid range nothing is disabled; with one, a range that does not parse throws, and a parsed range is disabled exactly when it is not a subset of the valid range (also lines 116 and 123) |
| RangeSelector.SuggestionOptions | src/update-interactive/ui/app/range-selector.tsx:118-124 | one option per suggestion, in order, each disabled as that range is; fails exactly when one of them throws |
| RangeSelector.Options | src/update-interactive/ui/app/range-selector.tsx:111-125 | the current range first, with no value, then one option per suggestion other than the current range, in order; fails exactly when the current range or a kept suggestion throws |
| RangeSelector.OptionValues | src/update-interactive/ui/app/range-selector.tsx:118-124 | the options after the first carry exactly the suggestions other than the current range |
| RangeSelector.OptionsFail | src/update-interactive/ui/app/range-selector.tsx:108-125 | without a valid range every option is enabled and nothing fails; with one, the options fail exactly when the current range or a kept suggestion does not parse |
| RangeSelector.FindOption | src/update-interactive/ui/app/range-selector.tsx:128 | nothing exactly when no option is accepted; otherwise the first accepted option (also line 129) |
| RangeSelector.ActiveOption | src/update-interactive/ui/app/range-selector.tsx:127-130 | the first option matching the item's selected range, else the first enabled option, else the first option |
| RangeSelector.Render | src/update-interactive/ui/app/range-selector.tsx:36-152 | no item shows the placeholder; an unselected item that is included shows who defines it; the box waits exactly while there are no stored suggestions and none fetched; an empty suggestion list shows the current range; otherwise it offers the options with the active one highlighted, and fails exactly when building the options does |
| RangeSelector.SuggestionsFor | src/update-interactive/ui/app/range-selector.tsx:69-73 | the suggestions stored with the selection; without them, those `getSuggestions` gives for the first requested descriptor, exactly when they were fetched |
| RangeSelector.ChosenIsActive | src/update-interactive/ui/app/range-selector.tsx:127-130 | a suggested range the user chose is the highlighted option |
| RangeSelector.ClearedIsCurrent | src/update-interactive/ui/app/range-selector.tsx:127-130 | a cleared selection highlights the current range |
| Resolver.StripNpmExamples | src/update-interactive/update-resolver.ts:26 | `npm:1.2.3` is read as 1.2.3, and `1.2.3` is read unchanged |
| Resolver.SortedSameVersions | src/update-interactive/update-resolver.ts:105 | the sorted copy holds the same versions, newest first |
| Resolver.NewMajorNewMinor | src/update-interactive/update-resolver.ts:111-121 | a version opening a new major also opens a new minor, and no earlier minor belongs to that major |
| Resolver.HeadsNewestOfBucket | src/update-interactive/update-resolver.ts:107-122 | over versions sorted newest first, the version recorded for a major or minor is the newest of that bucket |
| Resolver.HeadsNonIncreasing | src/update-interactive/update-resolver.ts:107-122 | over versions sorted newest first, the recorded versions are in the same order |
| Resolver.TwoMajorsDescending | src/update-interactive/update-resolver.ts:130-136 | with two majors, the versions used start with the newest version and descend strictly |
| Resolver.PicksAreChosen | src/update-interactive/update-resolver.ts:141-145 | the versions offered are the first four of those used, in reverse order |
| OrderedMaps.Put | src/update-interactive/ui/app/state/selection.ts:145 | `map.set`: the key maps to the value, a new key goes last and an existing key keeps its place |
| OrderedMaps.Remove | src/update-interactive/ui/app/state/selection.ts:223-224 | `map.delete`: the key and its value are gone and the other keys keep their order |
| OrderedMaps.Values | src/update-interactive/ui/app/state/selection.ts:97 | `map.values()`: the values in key order |
| OrderedMaps.FromDistinctEntries | src/update-interactive/ui/app/state/hook.ts:11 | a map built from entries with distinct keys holds each entry, in order, and nothing else |
| Sorting.SortBy | src/update-interactive/ui/app/state/hook.ts:29-31 | a sorted copy is a permutation of the input |
| Sorting.SortBySorted | src/update-interactive/ui/app/state/hook.ts:29-31 | with a consistent comparator, the copy is in comparator order |

## Left out

- Network and process I/O are not modelled. This covers npm registry fetches, `project.install`, git commits, running `ng update` and the log files. Version lists, dist-tags and package metadata are inputs; the migration runs are modelled as the argument lists they would receive.
- Asynchronous fetching and promise de-duplication in `UpdateResolver` and `ui/app/index.tsx` are out. The caches are filled by explicit record methods.
- The `own-semver` parser, `intersects`, `subset`, `minVersion` and `satisfies` are parameters in `Lib`, not re-implemented. So are yarn's `structUtils` (parsing, hashing, pretty-printing) and `cleanRange`. Any law about them is a lemma hypothesis.
- yarn's `miscUtils.setIntersect` is taken to be plain set intersection, with an absent set giving an absent result.
- `tryWorkspaceByDescriptor` and the workspace list are parameters of `getAllDependencies`.
- Ranges.GetIntersection: the result keeps the computed clause intersections as they are. `new Range` on their joined text (ranges.ts:24) also drops clauses that admit no version, and collapses the set to `*` when a clause is ANY; that normalisation is not modelled.
- Build metadata in versions is left out. `compareBuild` orders as `compare` does.
- The memoisation caches (`rangeMap`, `semVerCache`, `rangeCache`, `itemStatusCache`) are left out, because they are observably pure. The exception is the mutation of a memoised range by `sortByMaxVersion`, which is modelled (see "Findings").
- JavaScript object identity is not modelled. A package identifier is its stringified ident, taken to be injective. Reference comparison of memoised ranges is value comparison.
- `toIdentMap` (selection.ts:353-357) reads each name in `peerDependencies` and `ng-update.packageGroup` as the package identifier. `structUtils.parseIdent` throws on a malformed name; that throw is not modelled, so a manifest with such a name propagates where the source would abort the update.
- Ranges.SortByMaxVersion: states a permutation in non-increasing key order but not stability. JavaScript's `Array#sort` keeps descriptors with equal keys in their input order, and that relative order is not stated.
- Sorting.SortBy: likewise states a permutation in comparator order but not that equal elements keep their input order.
- Sorting and comparing names use Dafny's character order. JavaScript compares UTF-16 code units, which differs only outside the Basic Multilingual Plane.
- Labels, `prettyRange`, `prettyIdent`, colours and layout are left out. So is all JSX rendering, along with `measureElement` and the terminal size: `numberOfItems` is a parameter.
- The final `return state` of `reducer.ts:64` handles an event of no known kind. The event datatype has no such value.
- The initial state of `hook.ts` (lines 58-66) sets only `itemMap` and `itemOrder`, so `suggestionsFetched`, `metaFetched`, `selectedAndRequired` and `included` are undefined although the interface declares them. The code as written would throw on the first `.has` or `.get` on them (`reducer.ts:25`, `page-select.tsx:91`, `152`, `217` and `221`, `range-selector.tsx:71`). The model starts instead from empty sets and maps; the optional fetching sets start absent.
- React's `useReducer`, `useState` and `useRef` are modelled as plain state: the reducer's result and the fields of `PageSelect.SelectPage` and `SelectList.ScrollWindow`.
- RangeSelector.Render: requires the active item to have a requested descriptor, which every item built by `groupIdents` has.
- Spawning `ng` is not modelled, so what `ng update` does with an `undefined` `--from` argument (a migration whose installed versions gave no lowest version) is not either; the model only records that argument as `Undefined`.
- SelectionUpdate.RunPasses: each pass is stated as the composition of the per-package steps, but no fixpoint property of the final worklist is proved. When the queue ends empty, that every entry of an unselected package is what its verdict on the final worklist decides is not stated.
- Status.Explore: the requester lists are stated as sets of edges of the recorded paths. The order in which requesters are appended, and which of several paths the breadth-first walk records first, are not pinned.
- Status.GetItemStatuses: inherits the gap of `Status.Explore`. The order of the narrowed requester lists is not stated.
- SelectionUpdate.UpdateSelection: a failure is shown to come only from an unparseable requested range or an empty selected range. The converse, that every such input fails, is not stated.

## Findings

| source | as written | input that shows it | evidently intended | confidence | as-written member | corrected member |
|---|---|---|---|---|---|---|
| src/update-interactive/utils/ranges.ts:282-301 | a `>=a <b` clause becomes `^a` when `b` is the next major and `~a` when `b` is the next minor, without regard to a zero major, to an upper bound with a prerelease other than `-0`, or to further comparators in the clause | `>=0.2.3 <1.0.0` becomes `^0.2.3`, which rejects 0.5.0; `>=1.2.3 <1.3.0-beta` becomes `~1.2.3`, which rejects 1.3.0-0 (Ranges.TildeOfPrereleaseUpperNarrows); `>=1.2.3 <2.0.0 <1.5.0` becomes `^1.2.3`, which admits 1.6.0 (Ranges.ExtraComparatorWidens) | the simplified range accepts exactly the versions of the clause | not executed | Ranges.CaretOfZeroMajorNarrows | Ranges.SimplifyClauseExact |
| src/update-interactive/utils/ranges.ts:150-156 | the sort key of a clause whose upper bound is `<=v` is computed by bumping the version of that comparator in place to the next prerelease (the operator stays `<=`), inside the memoised range | `<=1.2.3` is keyed by 1.2.4-0 on the first sort, leaves the cached comparator `<=1.2.4-0`, and is keyed by 1.2.4-1 on the next sort | the key is computed without changing the range, so every sort agrees | not executed | Ranges.SortMutatesMemoisedRange | Ranges.SortByMaxVersion |
| src/update-interactive/ui/app/state/selection.ts:251-267 | the inner `const ident` shadows the selected package, so the walk looks for selected packages other than the demander instead of other than the selected package | `core` is selected and includes `common`, which requires `core`: the demand of `common` on `core` is kept | a demand that only exists through a loop back to the selected package is stripped | not executed | LoopStripping.ShadowedIdentKeepsLoop | LoopStripping.StripLoops |
| src/update-interactive/ui/app/page-select.tsx:82-85 | after the active item moves to another list, the effect switches to that list but records there the identifier that replaced the item in the old list | items `a`, `aa`, `b` with `b` active; choosing ranges for `aa` and `b` moves them to the selected list, and the page lands on `aa` | the moved item stays active in its new list | not executed | PageSelect.FollowAsWrittenMisses | PageSelect.FollowLands |
