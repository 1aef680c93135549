/** Yarn's idents, descriptors and descriptor-range syntax. */
module Structs {
  import opened Wrappers

  /**
   * An ident, written `@scope/name`. Its hash (`identHash`) is modelled by this
   * text itself, so two idents share a hash exactly when they are equal.
   */
  type IdentHash = string

  /** A descriptor: an ident and the range requested for it. Its `descriptorHash` is the pair itself. */
  datatype Descriptor = Descriptor(ident: IdentHash, range: string)

  /**
   * A descriptor range split into its parts (`structUtils.parseRange`). A `patch:`
   * range carries the descriptor it patches, itself parsed, as its source.
   */
  datatype RangeSyntax =
    | Plain(protocol: Option<string>, source: Option<string>, selector: string, params: Option<string>)
    | Patch(sourceIdent: IdentHash, sourceRange: RangeSyntax, selector: string, params: Option<string>)
}

/** The operations of node-semver and of yarn's `structUtils` the model relies on without re-implementing them. */
module Externals {
  import opened Wrappers
  import opened Semver
  import opened Structs

  datatype Lib = Lib(
    /** `semver.valid(s) ? new SemVer(s) : null`: the version `s` denotes exactly, if any. */
    validVersion: string -> Option<Version>,
    /** `semver.validRange(s) ? new Range(s) : null`; `new Range(s)` throws exactly where this is null. */
    validRange: string -> Option<Range>,
    /** `Range#intersects`, also `semver.intersects` once both sides are parsed. */
    rangesIntersect: (Range, Range) -> bool,
    /** `Comparator#intersects` */
    comparatorsIntersect: (Comparator, Comparator) -> bool,
    /** `semver.subset(sub, dom)` once both sides are parsed. */
    subset: (Range, Range) -> bool,
    /** `semver.minVersion` */
    minVersion: Range -> Option<Version>,
    /** `structUtils.parseRange(structUtils.convertToManifestRange(s)).selector` */
    manifestSelector: string -> string,
    /** `structUtils.parseRange`, following a `patch:` source through `parseDescriptor`. */
    parseRangeSyntax: string -> RangeSyntax,
    /** `structUtils.makeRange`, writing a `patch:` source back with `stringifyDescriptor`. */
    makeRange: RangeSyntax -> string
  )
}
