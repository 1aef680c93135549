/**
 * The confirmation page (`ui/app/page-confirm.tsx`): the range each shown
 * package moves to, the notes printed beside it, its migration and the new
 * range of every descriptor it is requested through.
 */
module Confirm {
  import opened Wrappers
  import opened Seqs
  import opened Semver
  import opened Structs
  import opened Externals
  import opened OrderedMaps
  import opened Ranges
  import opened AppStates
  import opened Status

  // ---------------------------------------------------------------------------
  // parseRange (lines 235-265)

  /** `parsedRange`: the selector of the range under all the `patch:` wrappers. */
  function Innermost(syntax: RangeSyntax): string {
    match syntax
    case Plain(_, _, selector, _) => selector
    case Patch(_, source, _, _) => Innermost(source)
  }

  /** The range with its innermost selector replaced, every wrapper around it kept as it was. */
  function WithSelector(syntax: RangeSyntax, selector: string): RangeSyntax {
    match syntax
    case Plain(protocol, source, _, params) => Plain(protocol, source, selector, params)
    case Patch(ident, source, outer, params) => Patch(ident, WithSelector(source, selector), outer, params)
  }

  /**
   * Rewriting puts the new selector innermost, forgets the one written
   * before, and writing back the selector that was read gives the range back.
   */
  lemma {:induction false} WithSelectorInnermost(syntax: RangeSyntax, selector: string, other: string)
    ensures Innermost(WithSelector(syntax, selector)) == selector
    ensures WithSelector(WithSelector(syntax, other), selector) == WithSelector(syntax, selector)
    ensures WithSelector(syntax, Innermost(syntax)) == syntax
  {
    match syntax
    case Plain(_, _, _, _) =>
    case Patch(_, source, _, _) => WithSelectorInnermost(source, selector, other);
  }

  /**
   * Only the innermost selector changes: two ranges that agree on it and
   * on the rest of their wrapping are the same range.
   */
  lemma {:induction false} InnermostDetermines(a: RangeSyntax, b: RangeSyntax)
    requires WithSelector(a, "") == WithSelector(b, "") && Innermost(a) == Innermost(b)
    ensures a == b
  {
    match a
    case Plain(_, _, _, _) =>
    case Patch(_, source, _, _) => InnermostDetermines(source, b.sourceRange);
  }

  /** What `parseRange(range)` returns: the innermost selector and the parsed range `stringifyRange` rewrites. */
  datatype ParsedRange = ParsedRange(parsedRange: string, syntax: RangeSyntax)

  function ParseRange(lib: Lib, range: string): ParsedRange {
    var syntax := lib.parseRangeSyntax(range);
    ParsedRange(Innermost(syntax), syntax)
  }

  /** `stringifyRange(selector)` */
  function StringifyRange(lib: Lib, parsed: ParsedRange, selector: string): string {
    lib.makeRange(WithSelector(parsed.syntax, selector))
  }

  /** A range that is not a `patch:` keeps its protocol, source and parameters, and only its selector changes. */
  lemma PlainKeepsProtocol(lib: Lib, range: string, selector: string)
    requires lib.parseRangeSyntax(range).Plain?
    ensures var syntax := lib.parseRangeSyntax(range);
      StringifyRange(lib, ParseRange(lib, range), selector) == lib.makeRange(Plain(syntax.protocol, syntax.source, selector, syntax.params))
    ensures ParseRange(lib, range).parsedRange == lib.parseRangeSyntax(range).selector
  {
  }

  // ---------------------------------------------------------------------------
  // The range the package moves to (lines 113-166)

  const UnexpectedItemError := "Error: Unexpected updated item"

  /** A warning printed under the package; the ranges and versions are listed before `prettyRange` formats them. */
  datatype Note =
    | MultipleIncluded(ranges: seq<string>)
    | MultipleRequired(ranges: seq<string>)
    | MultipleInstalled(versions: seq<string>)

  /** `requesters.map(r => rangeToString(r.range))` */
  function RangeTexts(qs: seq<Requester>): (r: seq<string>)
    ensures |r| == |qs| && forall k :: 0 <= k < |qs| ==> r[k] == RangeToString(qs[k].range, false)
  {
    seq(|qs|, k requires 0 <= k < |qs| => RangeToString(qs[k].range, false))
  }

  /** `new Set(...)` of those texts, in the order they first occur. */
  function DistinctRanges(qs: seq<Requester>): (r: seq<string>)
    ensures Distinct(r) && forall s :: s in r <==> s in RangeTexts(qs)
  {
    AddAllLast([], RangeTexts(qs))
  }

  /** Lines 129-138 and 152-161: the distinct ranges, listed only when there are several. */
  function SeveralRanges(qs: seq<Requester>): Option<seq<string>> {
    if |qs| != 1 && |DistinctRanges(qs)| > 1 then Some(DistinctRanges(qs)) else None
  }

  /** Two different elements make a repetition-free list at least two long. */
  lemma TwoDistinct(r: seq<string>, x: string, y: string)
    requires x in r && y in r && x != y
    ensures |r| > 1
  {
  }

  /** The ranges are listed exactly when two requesters ask for differently written ranges. */
  lemma SeveralRangesIff(qs: seq<Requester>)
    ensures SeveralRanges(qs).Some? <==>
      exists i, j :: 0 <= i < |qs| && 0 <= j < |qs| && RangeToString(qs[i].range, false) != RangeToString(qs[j].range, false)
    ensures SeveralRanges(qs).Some? ==> forall s :: s in SeveralRanges(qs).value <==> exists k :: 0 <= k < |qs| && s == RangeToString(qs[k].range, false)
  {
    var texts, r := RangeTexts(qs), DistinctRanges(qs);
    if exists i, j :: 0 <= i < |qs| && 0 <= j < |qs| && RangeToString(qs[i].range, false) != RangeToString(qs[j].range, false) {
      var i, j :| 0 <= i < |qs| && 0 <= j < |qs| && RangeToString(qs[i].range, false) != RangeToString(qs[j].range, false);
      assert texts[i] in r && texts[j] in r;
      TwoDistinct(r, texts[i], texts[j]);
    }
    if |r| > 1 {
      assert r[0] in texts && r[1] in texts;
    }
  }

  /** `includers[0].range`: an empty list has no first entry and reading `.range` throws. */
  function FirstDemand(qs: seq<Requester>): (r: Result<Demand>)
    ensures r.Success? <==> |qs| > 0
    ensures r.Success? ==> r.value == qs[0].range
  {
    if |qs| == 0 then Failure(MissingFirstError) else Success(qs[0].range)
  }

  /** `intersects(requiredRange, selectedRange)`: the selected text is parsed, which throws when it is no range. */
  function SelectionMeets(lib: Lib, required: Range, selected: string): (r: Result<bool>)
    ensures r.Failure? <==> lib.validRange(selected).None?
    ensures r.Success? ==> r.value == lib.rangesIntersect(required, lib.validRange(selected).value)
  {
    match lib.validRange(selected)
    case None => Failure(InvalidRangeError)
    case Some(parsed) => Success(lib.rangesIntersect(required, parsed))
  }

  /** The user's range fits what is required: nothing is, or the user's range shares a version with it. */
  predicate SelectionFits(lib: Lib, required: Option<Range>, selected: string) {
    required.None? || (lib.validRange(selected).Some? && lib.rangesIntersect(required.value, lib.validRange(selected).value))
  }

  /** Lines 115-120: the user's range, kept only when it fits the required range. */
  function SelectedTarget(lib: Lib, itemMap: OMap<IdentHash, UpdatableItem>, st: Statuses, ident: IdentHash): (r: Result<Option<Demand>>)
    requires ident in itemMap.entries
    ensures var selected := itemMap.entries[ident].selectedRange;
      r.Success? && r.value.Some? <==>
        selected.Chosen? && GetRequiredRange(lib, st, ident).Success? && SelectionFits(lib, GetRequiredRange(lib, st, ident).value, selected.range)
    ensures r.Success? && r.value.Some? ==> r.value.value == TextDemand(itemMap.entries[ident].selectedRange.range)
    ensures !IsSelected(itemMap, ident) ==> r == Success(None)
    ensures r.Failure? ==> r.error != UnexpectedItemError
  {
    var selected := itemMap.entries[ident].selectedRange;
    if !selected.Chosen? then Success(None)
    else
      var required :- GetRequiredRange(lib, st, ident);
      if required.None? then Success(Some(TextDemand(selected.range)))
      else
        var meets :- SelectionMeets(lib, required.value, selected.range);
        if meets then Success(Some(TextDemand(selected.range))) else Success(None)
  }

  /** Line 144-146: the first suggestion meeting the required range, when both are known. */
  function SuggestedTarget(lib: Lib, item: UpdatableItem, required: Option<Range>): (r: Result<Option<string>>)
    ensures required.None? || item.suggestions.None? ==> r == Success(None)
    ensures r.Failure? ==> r.error == InvalidRangeError
  {
    if item.suggestions.Some? && required.Some? then FindIntersecting(lib, item.suggestions.value, required.value)
    else Success(None)
  }

  /** Lines 122-165: without the user's range, the first includer's range, else a suggestion or the first requirer's range. */
  function DemandedTarget(lib: Lib, itemMap: OMap<IdentHash, UpdatableItem>, st: Statuses, ident: IdentHash): (r: Result<(Demand, seq<Note>)>)
    requires ident in itemMap.entries
  {
    if ident in st.includedBy then
      var includers := st.includedBy[ident];
      var first :- FirstDemand(includers);
      Success((first, RangesNote(includers, true)))
    else if ident in st.requiredBy then
      var requirers := st.requiredBy[ident];
      var required :- GetRequiredRange(lib, st, ident);
      var found :- SuggestedTarget(lib, itemMap.entries[ident], required);
      var target :- if found.Some? then Success(TextDemand(found.value)) else FirstDemand(requirers);
      Success((target, RangesNote(requirers, false)))
    else Failure(UnexpectedItemError)
  }

  /**
   * `versionOrRange` after lines 113-166, with the notes pushed on the way;
   * throws exactly for a package that is not selected and has neither
   * includers nor requirers.
   */
  function Target(lib: Lib, itemMap: OMap<IdentHash, UpdatableItem>, st: Statuses, ident: IdentHash): (r: Result<(Demand, seq<Note>)>)
    requires ident in itemMap.entries
    ensures r == Failure(UnexpectedItemError) <==> !IsSelected(itemMap, ident) && ident !in st.includedBy && ident !in st.requiredBy
  {
    var selected :- SelectedTarget(lib, itemMap, st, ident);
    if selected.Some? then Success((selected.value, [])) else DemandedTarget(lib, itemMap, st, ident)
  }

  /** The note on the ranges of `qs`, if any; `included` tells which list they come from. */
  function RangesNote(qs: seq<Requester>, included: bool): seq<Note> {
    var several := SeveralRanges(qs);
    if several.None? then [] else if included then [MultipleIncluded(several.value)] else [MultipleRequired(several.value)]
  }

  /** The user's range wins whenever it fits the required range, and no note is pushed. */
  lemma TargetSelected(lib: Lib, itemMap: OMap<IdentHash, UpdatableItem>, st: Statuses, ident: IdentHash)
    requires ident in itemMap.entries && itemMap.entries[ident].selectedRange.Chosen?
    requires GetRequiredRange(lib, st, ident).Success?
    requires SelectionFits(lib, GetRequiredRange(lib, st, ident).value, itemMap.entries[ident].selectedRange.range)
    ensures Target(lib, itemMap, st, ident) == Success((TextDemand(itemMap.entries[ident].selectedRange.range), []))
  {
  }

  /** Otherwise the first includer's range, with a note when the includers ask for several ranges. */
  lemma TargetIncluded(lib: Lib, itemMap: OMap<IdentHash, UpdatableItem>, st: Statuses, ident: IdentHash)
    requires ident in itemMap.entries && SelectedTarget(lib, itemMap, st, ident) == Success(None)
    requires ident in st.includedBy
    ensures Target(lib, itemMap, st, ident).Success? <==> |st.includedBy[ident]| > 0
    ensures Target(lib, itemMap, st, ident).Success? ==>
      Target(lib, itemMap, st, ident).value == (st.includedBy[ident][0].range, RangesNote(st.includedBy[ident], true))
  {
  }

  /**
   * Without includers, the first suggestion that meets the required range,
   * else the first requirer's range, with a note when the requirers ask for
   * several ranges.
   */
  lemma TargetRequired(lib: Lib, itemMap: OMap<IdentHash, UpdatableItem>, st: Statuses, ident: IdentHash)
    requires ident in itemMap.entries && SelectedTarget(lib, itemMap, st, ident) == Success(None)
    requires ident !in st.includedBy && ident in st.requiredBy
    requires Target(lib, itemMap, st, ident).Success?
    ensures GetRequiredRange(lib, st, ident).Success?
    ensures var suggested := SuggestedTarget(lib, itemMap.entries[ident], GetRequiredRange(lib, st, ident).value);
      var r := Target(lib, itemMap, st, ident).value;
      && suggested.Success?
      && r.1 == RangesNote(st.requiredBy[ident], false)
      && (suggested.value.Some? ==> r.0 == TextDemand(suggested.value.value))
      && (suggested.value.None? ==> |st.requiredBy[ident]| > 0 && r.0 == st.requiredBy[ident][0].range)
  {
  }

  /** A package moves to a suggestion only when the suggestion is on its list and meets its required range. */
  lemma SuggestedTargetMeets(lib: Lib, item: UpdatableItem, required: Option<Range>)
    ensures var suggested := SuggestedTarget(lib, item, required);
      suggested.Success? && suggested.value.Some? ==>
        item.suggestions.Some? && suggested.value.value in item.suggestions.value && required.Some? &&
        lib.validRange(suggested.value.value).Some? && lib.rangesIntersect(lib.validRange(suggested.value.value).value, required.value)
  {
    if item.suggestions.Some? && required.Some? {
      var suggestions := item.suggestions.value;
      FindIntersectingStops(lib, suggestions, required.value);
      var found := FindIntersecting(lib, suggestions, required.value);
      if found.Success? && found.value.Some? {
        var k :| 0 <= k < |suggestions| && suggestions[k] == found.value.value &&
          lib.validRange(suggestions[k]).Some? && lib.rangesIntersect(lib.validRange(suggestions[k]).value, required.value) &&
          MissedBefore(lib, suggestions, required.value, k);
        assert suggestions[k] in suggestions;
      }
    }
  }

  // ---------------------------------------------------------------------------
  // Installed versions (lines 168-206)

  /** `project.storedResolutions` (descriptor hash to locator hash), `project.storedPackages` (locator hash to version) and the `defaultProtocol` setting. */
  datatype Project = Project(
    storedResolutions: map<Descriptor, string>,
    storedPackages: map<string, Option<string>>,
    defaultProtocol: string
  )

  const NoResolutionError := "Error: No resolution found"
  const NoPackageError := "TypeError: Cannot read properties of undefined (reading 'version')"

  /** Lines 171-185: the locator a descriptor resolved to, looked up as written, then with the default protocol. */
  function Resolution(project: Project, d: Descriptor): (r: Result<string>)
    ensures r.Success? <==> d in project.storedResolutions || Descriptor(d.ident, project.defaultProtocol + d.range) in project.storedResolutions
    ensures d in project.storedResolutions ==> r == Success(project.storedResolutions[d])
    ensures r.Success? ==> r.value in project.storedResolutions.Values
  {
    if d in project.storedResolutions then Success(project.storedResolutions[d])
    else
      var withProtocol := Descriptor(d.ident, project.defaultProtocol + d.range);
      if withProtocol in project.storedResolutions then Success(project.storedResolutions[withProtocol])
      else Failure(NoResolutionError)
  }

  /** Lines 169-188: the locators of the installed descriptors, each once, in the order first met. */
  function InstalledLocators(project: Project, ds: seq<Descriptor>): (r: Result<seq<string>>)
    ensures r.Success? <==> forall d :: d in ds ==> Resolution(project, d).Success?
    ensures r.Success? ==> Distinct(r.value)
    ensures r.Success? ==> forall l :: l in r.value <==> exists d :: d in ds && Resolution(project, d) == Success(l)
    decreases |ds|
  {
    if |ds| == 0 then Success([])
    else
      var init, last := ds[..|ds| - 1], ds[|ds| - 1];
      assert forall d :: d in ds <==> d in init || d == last by {
        assert ds == init + [last];
      }
      var locators :- InstalledLocators(project, init);
      var locator :- Resolution(project, last);
      Success(AddLast(locators, locator))
  }

  /** Line 195: the version of a locator's package, or `no version`. */
  function VersionText(project: Project, locator: string): string {
    if locator in project.storedPackages && project.storedPackages[locator].Some? then project.storedPackages[locator].value
    else "no version"
  }

  /** Lines 190-199: the note listing the installed versions when several locators are installed. */
  function InstalledNote(project: Project, locators: seq<string>): (r: seq<Note>)
    ensures |r| > 0 <==> |locators| > 1
    ensures |r| > 0 ==> |r| == 1 && r[0].MultipleInstalled? && |r[0].versions| == |locators|
    ensures |r| > 0 ==> forall k :: 0 <= k < |locators| ==> r[0].versions[k] == VersionText(project, locators[k])
  {
    if |locators| > 1 then [MultipleInstalled(seq(|locators|, k requires 0 <= k < |locators| => VersionText(project, locators[k])))]
    else []
  }

  /** Lines 202-205: the versions of the installed packages, skipping packages without one; a locator with no package throws. */
  function InstalledVersions(project: Project, locators: seq<string>): (r: Result<seq<string>>)
    ensures r.Success? <==> forall l :: l in locators ==> l in project.storedPackages
    ensures r.Success? ==> forall v :: v in r.value <==> exists l :: l in locators && project.storedPackages[l] == Some(v)
    decreases |locators|
  {
    if |locators| == 0 then Success([])
    else
      var init, last := locators[..|locators| - 1], locators[|locators| - 1];
      assert forall l :: l in locators <==> l in init || l == last by {
        assert locators == init + [last];
      }
      var versions :- InstalledVersions(project, init);
      if last !in project.storedPackages then Failure(NoPackageError)
      else if project.storedPackages[last].Some? then Success(versions + [project.storedPackages[last].value])
      else Success(versions)
  }

  const InvalidVersionError := "TypeError: Invalid Version"

  /** Every text is a version. */
  predicate AllVersions(lib: Lib, texts: seq<string>) {
    forall k :: 0 <= k < |texts| ==> lib.validVersion(texts[k]).Some?
  }

  /** The position of the first of the lowest versions. */
  function LowestIndex(lib: Lib, texts: seq<string>): (k: nat)
    requires |texts| > 0 && AllVersions(lib, texts)
    ensures k < |texts|
    ensures forall j :: 0 <= j < |texts| ==> Le(lib.validVersion(texts[k]).value, lib.validVersion(texts[j]).value)
    ensures forall j :: 0 <= j < k ==> Lt(lib.validVersion(texts[k]).value, lib.validVersion(texts[j]).value)
  {
    if |texts| == 1 then
      CompareAntisymmetric(lib.validVersion(texts[0]).value, lib.validVersion(texts[0]).value);
      0
    else
      var rest := LowestIndex(lib, texts[1..]);
      var head, low := lib.validVersion(texts[0]).value, lib.validVersion(texts[1 + rest]).value;
      assert forall j :: 1 <= j < |texts| ==> texts[j] == texts[1..][j - 1];
      if Le(head, low) then
        CompareAntisymmetric(head, head);
        assert forall j :: 1 <= j < |texts| ==> Le(head, lib.validVersion(texts[j]).value) by {
          forall j | 1 <= j < |texts| ensures Le(head, lib.validVersion(texts[j]).value) {
            CompareTransitive(head, low, lib.validVersion(texts[j]).value);
          }
        }
        0
      else
        CompareAntisymmetric(head, low);
        1 + rest
  }

  /**
   * `sort(versions)[0]`: nothing for no versions, the only one for one
   * (the comparison, which parses, never runs), and otherwise the first of
   * the lowest, after every text has been parsed.
   */
  function Lowest(lib: Lib, texts: seq<string>): (r: Result<Option<string>>)
    ensures |texts| == 0 ==> r == Success(None)
    ensures |texts| == 1 ==> r == Success(Some(texts[0]))
    ensures |texts| > 1 ==> (r.Failure? <==> !AllVersions(lib, texts))
    ensures |texts| > 1 && r.Success? ==>
      (exists k :: 0 <= k < |texts| && r.value == Some(texts[k]) &&
         (forall j :: 0 <= j < |texts| ==> Le(lib.validVersion(texts[k]).value, lib.validVersion(texts[j]).value)) &&
         (forall j :: 0 <= j < k ==> Lt(lib.validVersion(texts[k]).value, lib.validVersion(texts[j]).value)))
  {
    if |texts| == 0 then Success(None)
    else if |texts| == 1 then Success(Some(texts[0]))
    else if !AllVersions(lib, texts) then Failure(InvalidVersionError)
    else Success(Some(texts[LowestIndex(lib, texts)]))
  }

  // ---------------------------------------------------------------------------
  // Migration and descriptor updates (lines 208-231)

  /** `migrate`: the lowest installed version and the version to migrate to. */
  datatype Migrate = Migrate(from: Option<string>, to: Option<string>)

  /**
   * Line 216: the new range itself when it is an exact version, else the
   * least version it admits if any; `minVersion` throws on a text that is
   * no range.
   */
  function MigrationTarget(lib: Lib, newRange: string): (r: Result<Option<string>>)
    ensures lib.validVersion(newRange).Some? ==> r == Success(Some(newRange))
    ensures lib.validVersion(newRange).None? ==> (r.Failure? <==> lib.validRange(newRange).None?)
    ensures lib.validVersion(newRange).None? && r.Success? ==>
      (r.value.Some? <==> lib.minVersion(lib.validRange(newRange).value).Some?) &&
      (r.value.Some? ==> r.value.value == FormatVersion(lib.minVersion(lib.validRange(newRange).value).value))
  {
    if lib.validVersion(newRange).Some? then Success(Some(newRange))
    else match lib.validRange(newRange)
      case None => Failure(InvalidRangeError)
      case Some(range) =>
        match lib.minVersion(range)
        case None => Success(None)
        case Some(v) => Success(Some(FormatVersion(v)))
  }

  /**
   * Lines 220-230: the old range of a requested descriptor and its new one,
   * the simplified new range written in the style of the old, inside the
   * old range's `patch:` wrappers.
   */
  function UpdateFor(lib: Lib, d: Descriptor, newRange: string): (r: Result<(string, string)>)
    ensures r.Success? <==> SimplifiedRange(lib, newRange).Success?
    ensures r.Success? ==> r.value.0 == d.range
    ensures r.Success? ==>
      r.value.1 == lib.makeRange(WithSelector(lib.parseRangeSyntax(d.range),
        UpdatableRange(lib, SimplifiedRange(lib, newRange).value, Some(CleanRange(lib, Innermost(lib.parseRangeSyntax(d.range)))))))
  {
    var parsed := ParseRange(lib, d.range);
    var simplified :- SimplifiedRange(lib, newRange);
    Success((d.range, StringifyRange(lib, parsed, UpdatableRange(lib, simplified, Some(CleanRange(lib, parsed.parsedRange))))))
  }

  /** Lines 219-231: the map from each requested descriptor to its old and new range. */
  function Updates(lib: Lib, ds: seq<Descriptor>, newRange: string): (r: Result<OMap<Descriptor, (string, string)>>)
    ensures r.Success? <==> |ds| == 0 || SimplifiedRange(lib, newRange).Success?
    ensures r.Success? ==> forall d :: d in r.value.entries <==> d in ds
    ensures r.Success? ==> forall d :: d in r.value.entries ==> UpdateFor(lib, d, newRange) == Success(r.value.entries[d])
    decreases |ds|
  {
    if |ds| == 0 then Success(Empty())
    else
      var init, last := ds[..|ds| - 1], ds[|ds| - 1];
      assert forall d :: d in ds <==> d in init || d == last by {
        assert ds == init + [last];
      }
      var updates :- Updates(lib, init, newRange);
      var update :- UpdateFor(lib, last, newRange);
      UpdatesPut(lib, init, last, newRange, updates, update);
      Success(Put(updates, last, update))
  }

  /** Adding the update of one more descriptor keeps every entry the update of its descriptor. */
  lemma UpdatesPut(lib: Lib, init: seq<Descriptor>, last: Descriptor, newRange: string,
                   updates: OMap<Descriptor, (string, string)>, update: (string, string))
    requires forall d :: d in updates.entries <==> d in init
    requires forall d :: d in updates.entries ==> UpdateFor(lib, d, newRange) == Success(updates.entries[d])
    requires UpdateFor(lib, last, newRange) == Success(update)
    ensures forall d :: d in Put(updates, last, update).entries <==> d in init || d == last
    ensures forall d :: d in Put(updates, last, update).entries ==> UpdateFor(lib, d, newRange) == Success(Put(updates, last, update).entries[d])
  {
  }

  /** What `getItemUpdateCollection` returns for one package. */
  datatype ItemUpdateCollection = ItemUpdateCollection(
    ident: IdentHash,
    notes: seq<Note>,
    migrate: Option<Migrate>,
    updates: OMap<Descriptor, (string, string)>
  )

  /**
   * `c` is what lines 168-231 build for `item` moving to `target` with the
   * notes `notes` pushed so far: the notes on installed versions added, a
   * migration exactly when the package has migrations, and one update for
   * each requested descriptor.
   */
  ghost predicate CollectionOf(lib: Lib, project: Project, item: UpdatableItem, target: Demand, notes: seq<Note>, c: ItemUpdateCollection) {
    var newRange := RangeToString(target, false);
    && c.ident == item.identHash
    && InstalledLocators(project, item.installedDescriptors).Success?
    && c.notes == notes + InstalledNote(project, InstalledLocators(project, item.installedDescriptors).value)
    && (c.migrate.Some? <==> item.meta.Some? && item.meta.value.hasMigrations)
    && (c.migrate.Some? ==> MigrationTarget(lib, newRange) == Success(c.migrate.value.to))
    && (forall d :: d in c.updates.entries <==> d in item.requestedDescriptors)
    && (forall d :: d in c.updates.entries ==> UpdateFor(lib, d, newRange) == Success(c.updates.entries[d]))
  }

  /** Lines 99-233 */
  function GetItemUpdateCollection(lib: Lib, project: Project, itemMap: OMap<IdentHash, UpdatableItem>, st: Statuses, ident: IdentHash)
    : (r: Result<ItemUpdateCollection>)
    requires ident in itemMap.entries
    ensures Target(lib, itemMap, st, ident).Failure? ==> r.Failure?
    ensures r.Success? ==>
      Target(lib, itemMap, st, ident).Success? &&
      CollectionOf(lib, project, itemMap.entries[ident], Target(lib, itemMap, st, ident).value.0, Target(lib, itemMap, st, ident).value.1, r.value)
  {
    var item := itemMap.entries[ident];
    var target :- Target(lib, itemMap, st, ident);
    var locators :- InstalledLocators(project, item.installedDescriptors);
    var versions :- InstalledVersions(project, locators);
    var lowest :- Lowest(lib, versions);
    var newRange := RangeToString(target.0, false);
    var migrate :-
      if item.meta.Some? && item.meta.value.hasMigrations then
        var to :- MigrationTarget(lib, newRange);
        Success(Some(Migrate(lowest, to)))
      else Success(None);
    var updates :- Updates(lib, item.requestedDescriptors, newRange);
    Success(ItemUpdateCollection(item.identHash, target.1 + InstalledNote(project, locators), migrate, updates))
  }

  /** Lines 201-218: the migration starts from the first of the lowest installed versions. */
  lemma MigrationFrom(lib: Lib, project: Project, itemMap: OMap<IdentHash, UpdatableItem>, st: Statuses, ident: IdentHash)
    requires ident in itemMap.entries
    requires GetItemUpdateCollection(lib, project, itemMap, st, ident).Success?
    requires GetItemUpdateCollection(lib, project, itemMap, st, ident).value.migrate.Some?
    ensures var locators := InstalledLocators(project, itemMap.entries[ident].installedDescriptors).value;
      && InstalledVersions(project, locators).Success?
      && Lowest(lib, InstalledVersions(project, locators).value).Success?
      && GetItemUpdateCollection(lib, project, itemMap, st, ident).value.migrate.value.from == Lowest(lib, InstalledVersions(project, locators).value).value
  {
    var item := itemMap.entries[ident];
    var target := Target(lib, itemMap, st, ident).value;
    var locators := InstalledLocators(project, item.installedDescriptors).value;
    assert InstalledVersions(project, locators).Success?;
    assert Lowest(lib, InstalledVersions(project, locators).value).Success?;
  }

  // ---------------------------------------------------------------------------
  // The page (lines 38-68)

  /** Lines 42-46: the packages that are selected, required or included. */
  predicate Shown(itemMap: OMap<IdentHash, UpdatableItem>, st: Statuses, ident: IdentHash) {
    ident in itemMap.entries && (IsSelected(itemMap, ident) || IsRequired(itemMap, st, ident) || IsIncluded(itemMap, st, ident))
  }

  /** `itemOrder.filter(...)` on lines 41-46. */
  function ShownIdents(itemMap: OMap<IdentHash, UpdatableItem>, st: Statuses, idents: seq<IdentHash>): (r: seq<IdentHash>)
    ensures forall i :: i in r <==> i in idents && Shown(itemMap, st, i)
  {
    if |idents| == 0 then []
    else
      assert idents == [idents[0]] + idents[1..];
      var rest := ShownIdents(itemMap, st, idents[1..]);
      if Shown(itemMap, st, idents[0]) then [idents[0]] + rest else rest
  }

  /** `.map(getItemUpdateCollection)` over the shown packages, stopping at the first that throws. */
  function Collections(lib: Lib, project: Project, itemMap: OMap<IdentHash, UpdatableItem>, st: Statuses, idents: seq<IdentHash>)
    : (r: Result<seq<ItemUpdateCollection>>)
    requires forall i :: i in idents ==> i in itemMap.entries
    ensures r.Success? ==> |r.value| == |idents|
    ensures r.Success? ==> forall k :: 0 <= k < |idents| ==> GetItemUpdateCollection(lib, project, itemMap, st, idents[k]) == Success(r.value[k])
    ensures r.Failure? <==> exists k :: 0 <= k < |idents| && GetItemUpdateCollection(lib, project, itemMap, st, idents[k]).Failure?
  {
    MapResults(idents, (i: IdentHash) requires i in itemMap.entries => GetItemUpdateCollection(lib, project, itemMap, st, i))
  }

  /** `xs.map(f)` where `f` may throw: every result, or the failure of the first element that fails. */
  function MapResults<A, B>(xs: seq<A>, f: A --> Result<B>): (r: Result<seq<B>>)
    requires forall k :: 0 <= k < |xs| ==> f.requires(xs[k])
    ensures r.Success? ==> |r.value| == |xs|
    ensures r.Success? ==> forall k :: 0 <= k < |xs| ==> f(xs[k]) == Success(r.value[k])
    ensures r.Failure? <==> exists k :: 0 <= k < |xs| && f(xs[k]).Failure?
  {
    if |xs| == 0 then Success([])
    else
      var head := f(xs[0]);
      var rest := MapResults(xs[1..], f);
      assert forall k :: 0 < k < |xs| ==> xs[k] == xs[1..][k - 1];
      if head.Failure? then Failure(head.error)
      else if rest.Failure? then Failure(rest.error)
      else Success([head.value] + rest.value)
  }

  /**
   * Lines 38-47: nothing while manifests are still queued for fetching,
   * else one collection per shown package in the order of the list.
   */
  function UpdateItems(lib: Lib, project: Project, state: AppState, st: Statuses): (r: Result<Option<seq<ItemUpdateCollection>>>)
    requires forall i :: i in state.itemOrder ==> i in state.itemMap.entries
    ensures state.fetchMetaQueue.Some? && |state.fetchMetaQueue.value| > 0 ==> r == Success(None)
    ensures r.Success? && r.value.Some? ==>
      Collections(lib, project, state.itemMap, st, ShownIdents(state.itemMap, st, state.itemOrder)) == Success(r.value.value)
  {
    if state.fetchMetaQueue.Some? && |state.fetchMetaQueue.value| > 0 then Success(None)
    else
      var shown := ShownIdents(state.itemMap, st, state.itemOrder);
      var items :- Collections(lib, project, state.itemMap, st, shown);
      Success(Some(items))
  }

  /** What the page hands on for one package: the new ranges without the old ones. */
  datatype UpdateEntry = UpdateEntry(ident: IdentHash, migrate: Option<Migrate>, updates: OMap<Descriptor, string>)

  /** Line 64: each descriptor keeps only its new range. */
  function NewRanges(updates: OMap<Descriptor, (string, string)>): (r: OMap<Descriptor, string>)
    ensures r.keys == updates.keys
    ensures forall d :: d in r.entries <==> d in updates.entries
    ensures forall d :: d in r.entries ==> r.entries[d] == updates.entries[d].1
  {
    RawMap(updates.keys, map d | d in updates.entries :: updates.entries[d].1)
  }

  /** What the page hands on for `item`. */
  function Entry(item: ItemUpdateCollection): UpdateEntry {
    UpdateEntry(item.ident, item.migrate, NewRanges(item.updates))
  }

  /** Lines 57-68: the update collection, keyed by package; a later entry for the same package overwrites. */
  function Committed(items: seq<ItemUpdateCollection>): OMap<IdentHash, UpdateEntry>
    decreases |items|
  {
    if |items| == 0 then Empty()
    else Put(Committed(items[..|items| - 1]), items[|items| - 1].ident, Entry(items[|items| - 1]))
  }

  /** The collection holds one entry per package that has a collection. */
  lemma {:induction false} CommittedKeys(items: seq<ItemUpdateCollection>)
    ensures forall i :: i in Committed(items).entries <==> exists k :: 0 <= k < |items| && items[k].ident == i
    decreases |items|
  {
    if |items| > 0 {
      var init, last := items[..|items| - 1], items[|items| - 1];
      CommittedKeys(init);
      assert Committed(items).entries == Committed(init).entries[last.ident := Entry(last)];
      forall i ensures i in Committed(items).entries <==> exists k :: 0 <= k < |items| && items[k].ident == i {
        if i == last.ident {
          assert items[|items| - 1].ident == i;
        } else {
          PrefixIdents(items, init, i);
        }
      }
    }
  }

  /** An identifier other than the last one's is in `items` exactly when it is in all but the last. */
  lemma PrefixIdents(items: seq<ItemUpdateCollection>, init: seq<ItemUpdateCollection>, i: IdentHash)
    requires |items| > 0 && init == items[..|items| - 1] && items[|items| - 1].ident != i
    ensures (exists k :: 0 <= k < |items| && items[k].ident == i) <==> exists k :: 0 <= k < |init| && init[k].ident == i
  {
    if exists k :: 0 <= k < |items| && items[k].ident == i {
      var k :| 0 <= k < |items| && items[k].ident == i;
      assert init[k].ident == i;
    }
  }

  /** The entry of a package is made from the last collection for it. */
  lemma {:induction false} CommittedLast(items: seq<ItemUpdateCollection>, k: nat)
    requires k < |items| && forall j :: k < j < |items| ==> items[j].ident != items[k].ident
    ensures items[k].ident in Committed(items).entries && Committed(items).entries[items[k].ident] == Entry(items[k])
    decreases |items|
  {
    if k < |items| - 1 {
      var init := items[..|items| - 1];
      assert init[k] == items[k];
      CommittedLast(init, k);
    }
  }

  /**
   * The confirmation page as a whole: the statuses are worked out once
   * (`getItemStatus` memoises them), and only when some package needs them.
   */
  method ConfirmItems(lib: Lib, project: Project, state: AppState)
    returns (r: Result<Option<seq<ItemUpdateCollection>>>, ghost st: Statuses,
             ghost paths: map<IdentHash, set<IdentHash>>, ghost via: map<IdentHash, IdentHash>, ghost raw: Statuses)
    requires forall i :: i in state.itemOrder ==> i in state.itemMap.entries
    ensures state.fetchMetaQueue.Some? && |state.fetchMetaQueue.value| > 0 ==> r == Success(None)
    ensures |state.itemOrder| == 0 ==> r == UpdateItems(lib, project, state, Statuses(map[], map[]))
    ensures r.Success? ==> r == UpdateItems(lib, project, state, st)
    ensures r.Success? && |state.itemOrder| > 0 && !(state.fetchMetaQueue.Some? && |state.fetchMetaQueue.value| > 0) ==>
      Explored(state.itemMap, IgnoreTest(lib, state.itemMap), paths, via, raw) && NarrowedFrom(raw, st)
    ensures r.Failure? && |state.itemOrder| > 0 ==>
      ThrowsOnWalk(state.itemMap, IgnoreTest(lib, state.itemMap), paths, via) || r == UpdateItems(lib, project, state, st)
  {
    paths, via, raw := map[], map[], Statuses(map[], map[]);
    if state.fetchMetaQueue.Some? && |state.fetchMetaQueue.value| > 0 {
      return Success(None), Statuses(map[], map[]), paths, via, raw;
    }
    if |state.itemOrder| == 0 {
      r := UpdateItems(lib, project, state, Statuses(map[], map[]));
      return r, Statuses(map[], map[]), paths, via, raw;
    }
    var statuses;
    statuses, paths, via, raw := GetItemStatuses(lib, state.itemMap);
    if statuses.Failure? {
      return Failure(statuses.error), Statuses(map[], map[]), paths, via, raw;
    }
    st := statuses.value;
    r := UpdateItems(lib, project, state, statuses.value);
  }
}
