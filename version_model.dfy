/**
 * The state of a version object as a value. A `SemanticVersion` holds major,
 * minor and patch numbers, optional prerelease labels and optional build
 * metadata; a `NuGetVersion` holds the same plus a revision number and the
 * text it was parsed from. The flavor tag stands for the Ruby class of the
 * object, which the comparer inspects with `kind_of?`.
 */
module VersionModel {
  import opened Wrappers

  datatype Flavor =
    | Strict                                                   // a SemanticVersion
    | NuGet(revision: int, originalVersion: Option<string>)    // a NuGetVersion

  datatype Version = Version(
    major: int,
    minor: int,
    patch: int,
    releaseLabels: Option<seq<string>>,
    metadata: Option<string>,
    flavor: Flavor)

  /** The labels the comparer uses: `release_labels || []`. */
  function LabelsOrEmpty(v: Version): seq<string>
  {
    if v.releaseLabels.Some? then v.releaseLabels.value else []
  }

  /** The metadata the comparer uses: `metadata || ""`. */
  function MetadataOrEmpty(v: Version): string
  {
    if v.metadata.Some? then v.metadata.value else ""
  }

  /** The revision a version is compared by; a strict version counts as revision 0. */
  function EffectiveRevision(v: Version): int
  {
    if v.flavor.NuGet? then v.flavor.revision else 0
  }

  /** Nothing in the library stops a negative revision; the order laws need this. */
  predicate RevisionNonNegative(v: Version)
  {
    EffectiveRevision(v) >= 0
  }
}
