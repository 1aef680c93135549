/**
 * The state of the interactive update screen (`ui/app/state/interfaces.ts`) and
 * the slice of a package manifest it reads (`utils/manifest.ts`).
 */
module AppStates {
  import opened Wrappers
  import opened Semver
  import opened Structs
  import opened OrderedMaps
  import opened Externals

  /** What a demander asks of a package: a parsed range, or the range text when it does not parse. */
  datatype Demand = RangeDemand(range: Range) | TextDemand(text: string)

  /** `selectedRange?: string | null`: never set, cleared by the user, or a chosen range. */
  datatype Selected = Unset | Cleared | Chosen(range: string)
  {
    /** `selectedRange != null` */
    predicate IsSet() { Chosen? }

    /** JavaScript truthiness of the field: a chosen range that is not the empty string. */
    predicate Truthy() { Chosen? && range != "" }
  }

  /** `ng-update.packageGroup`: a list of package names, or names mapped to ranges. */
  datatype PackageGroup = GroupNames(names: seq<string>) | GroupRanges(entries: seq<(string, string)>)

  datatype NgUpdate = NgUpdate(migrations: Option<string>, packageGroup: Option<PackageGroup>)

  /** A manifest as published for one version; object entries keep their source order. */
  datatype UpdatableManifest = UpdatableManifest(
    name: string,
    version: string,
    peerDependencies: Option<seq<(string, string)>>,
    ngUpdate: Option<NgUpdate>
  )

  /** What `item.meta` holds once the target manifest is known: its package group and peer dependencies. */
  datatype ItemMeta = ItemMeta(
    includedPackages: seq<(IdentHash, Demand)>,
    peerDependencies: seq<(IdentHash, Demand)>,
    hasMigrations: bool
  )

  /** One package on the screen; `meta` and `suggestions` are read by the code but never declared. */
  datatype UpdatableItem = UpdatableItem(
    identHash: IdentHash,
    requestedDescriptors: seq<Descriptor>,
    installedDescriptors: seq<Descriptor>,
    labelText: string,
    disabled: bool,
    selectedRange: Selected,
    meta: Option<ItemMeta>,
    suggestions: Option<seq<string>>
  )

  /** A package the user selected or another package requires (peer dependency), with its demanders. */
  datatype SelectionInfo = SelectionInfo(
    demanders: OMap<IdentHash, Demand>,
    suggestions: Option<seq<string>>,
    selectedRange: Option<string>,
    validRange: Option<Range>,
    conflictingRanges: bool,
    hasMigrations: bool
  )

  /** A package another package includes through its `ng-update` package group. */
  datatype InclusionInfo = InclusionInfo(demanders: OMap<IdentHash, Demand>, validRange: Option<Range>)

  datatype AppState = AppState(
    itemMap: OMap<IdentHash, UpdatableItem>,
    itemOrder: seq<IdentHash>,
    suggestionsFetched: set<IdentHash>,
    metaFetched: set<IdentHash>,
    selectedAndRequired: OMap<IdentHash, SelectionInfo>,
    included: OMap<IdentHash, InclusionInfo>,
    metaFetching: Option<set<IdentHash>>,
    suggestionsFetching: Option<set<IdentHash>>,
    migrationsDisabled: Option<set<IdentHash>>,
    fetchMetaQueue: Option<set<IdentHash>>
  )

  datatype AppEvent =
    | RangeEvent(ident: IdentHash, range: Option<string>)
    | FetchSuggestionFor(fetchSuggestionFor: IdentHash)
    | SuggestionsEvent(suggestions: seq<IdentHash>)
    | ManifestsEvent(manifests: seq<IdentHash>)

  /** Every item is stored under its own hash and requests at least one descriptor, as `groupIdents` builds them. */
  predicate WellFormed(itemMap: OMap<IdentHash, UpdatableItem>) {
    forall i :: i in itemMap.entries ==>
      itemMap.entries[i].identHash == i && |itemMap.entries[i].requestedDescriptors| > 0
  }

  /** `rangeToString`: the text as is, else the range's raw text when pretty, else its normalised form. */
  function RangeToString(demand: Demand, pretty: bool): (r: string)
    ensures demand.TextDemand? ==> r == demand.text
    ensures demand.RangeDemand? && pretty ==> r == demand.range.raw
    ensures demand.RangeDemand? && !pretty ==> r == FormatRange(demand.range)
  {
    match demand
    case TextDemand(text) => text
    case RangeDemand(range) => if pretty then range.raw else FormatRange(range)
  }

  /**
   * The law `Range#format` keeps in node-semver: the normalised text of a range
   * the library parsed parses again to the same clauses.
   */
  ghost predicate FormatReparses(lib: Lib) {
    forall s :: lib.validRange(s).Some? ==>
      lib.validRange(FormatRange(lib.validRange(s).value)).Some? &&
      lib.validRange(FormatRange(lib.validRange(s).value)).value.clauses == lib.validRange(s).value.clauses
  }

  /** The non-pretty text of a parsed demand parses back to the demand's clauses; the pretty text is what the user wrote. */
  lemma RangeToStringReparses(lib: Lib, s: string)
    requires FormatReparses(lib)
    requires lib.validRange(s).Some?
    ensures var range := lib.validRange(s).value;
      lib.validRange(RangeToString(RangeDemand(range), false)).Some? &&
      lib.validRange(RangeToString(RangeDemand(range), false)).value.clauses == range.clauses
    ensures var range := lib.validRange(s).value;
      RangeToString(RangeDemand(range), true) == range.raw
  {
  }

  /** Non-pretty text depends on the clauses only, so two spellings of one range read the same. */
  lemma RangeToStringIgnoresRaw(a: Range, b: Range)
    requires a.clauses == b.clauses
    ensures RangeToString(RangeDemand(a), false) == RangeToString(RangeDemand(b), false)
  {
  }
}
