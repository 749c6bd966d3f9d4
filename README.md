# NuGetVersions in Dafny

A model of the Ruby `NuGetVersions` library's three core classes, with proofs of their properties.

- **`SemanticVersion`** is a strict `major.minor.patch[-labels][+metadata]` version. It has a validating constructor, setters, `to_s`, `parse` / `try_parse`, and comparison operators.
- **`NuGetVersion`** is a `SemanticVersion` with a fourth number, the revision. It remembers the text it was parsed from and accepts two to four numeric parts.
- **`VersionComparer.compare`** is the single three-way comparison behind every operator. It compares, in this order: the numbers, then the revision, then the release labels one identifier at a time, then the metadata.

Modules:

| file | module | contents |
|---|---|---|
| `wrappers.dfy` | `Wrappers` | `Option` (Ruby's `nil`) and `Result` (a `raise` with its message) |
| `ruby_text.dfy` | `RubyText` | the Ruby string operations the library relies on, each written out with its lemmas: `String#split` with and without a limit, `Array#join`, `Integer(s, 10)`, `Integer#to_s`, `<=>`, `casecmp` |
| `version_model.dfy` | `VersionModel` | `Version`, the value both classes carry. Its `Flavor` is `Strict` for a `SemanticVersion` and `NuGet(revision, originalVersion)` for a `NuGetVersion`. |
| `version_comparer.dfy` | `VersionComparer` | `compare` and its order properties |
| `semantic_version.dfy` | `SemanticVersions` | the strict constructor, validation, `to_s`, `try_parse`, the operators, and the `SemanticVersion` class with its setters |
| `nuget_version.dfy` | `NuGetVersions` | the NuGet constructor, `copy_of`, `to_s`, `try_parse`, and the `NuGetVersion` class |
| `fixtures.dfy` | `VersionFixtures` | the orderings and parse results the library's own tests expect, proved over the model |

How the Ruby constructs are represented:

- **Objects.** A Ruby object is a Dafny `class` whose setters change its fields. Each class's `Value()` reads those fields back as a `Version` value.
- **Pure operations.** Validation, parsing, printing and comparison are functions on `Version`.
- **Errors.** In the functions, a `raise` becomes a `Failure` carrying the same message, and a `nil` from `try_parse` becomes `None`. The class setters report a raise as `ok == false` without the message and leave the object unchanged. The class constructors require arguments that do not raise.

## Model

| member | source | states |
|---|---|---|
| RubyText.Join | lib/nuget_versions/semantic_version.rb:67 | `Array#join`: the elements with one separator between each pair; the empty list gives "". JoinFields and SplitJoin state that it undoes `split` and that `split` undoes it. |
| RubyText.IntToS | lib/nuget_versions/semantic_version.rb:86 | `Integer#to_s`: a '-' for a negative number, then decimal digits with no leading zero. ParseIntegerToS states that `Integer(s, 10)` reads it back. |
| RubyText.Spaceship | lib/nuget_versions/version_comparer.rb:10-12 | `<=>` on integers is -1, 0 or 1. It is 0 exactly when the two are equal, and -1 exactly when the first is smaller. |
| RubyText.SplitOnce | lib/nuget_versions/semantic_version.rb:135-139 | `split(sep, 2)`: empty text gives no fields. Otherwise, one field when the separator is absent, or the text before its first occurrence and everything after it. |
| RubyText.Split | lib/nuget_versions/semantic_version.rb:145 | `split(sep)` drops trailing empty fields; no field contains the separator |
| RubyText.SplitJoin | lib/nuget_versions/semantic_version.rb:65-68 | joining fields that avoid the separator and do not end in an empty field, then splitting, gives the fields back |
| RubyText.ParseInteger | lib/nuget_versions/semantic_version.rb:152-154 | `Integer(s, 10)` on text without '-' succeeds exactly on a non-empty digit string, with its decimal value |
| RubyText.ParseIntegerToS | lib/nuget_versions/semantic_version.rb:86 | `Integer(n.to_s, 10) == n` for every integer |
| RubyText.CaseCmp | lib/nuget_versions/version_comparer.rb:43 | `casecmp` is -1, 0 or 1. It compares ASCII-downcased characters left to right, and a proper prefix sorts first. CaseCmpZero, CaseCmpAntisymmetric and CaseCmpTransitive state its order properties. |
| RubyText.CaseCmpZero | lib/nuget_versions/version_comparer.rb:43 | `casecmp` is 0 exactly when the two texts are equal after downcasing |
| RubyText.CaseCmpAntisymmetric | lib/nuget_versions/version_comparer.rb:43 | swapping the operands of `casecmp` negates it |
| RubyText.CaseCmpTransitive | lib/nuget_versions/version_comparer.rb:43 | `casecmp` is a transitive preorder |
| SemanticVersions.TryValidateIdentifier | lib/nuget_versions/semantic_version.rb:175-177 | the count of characters outside A-Z, a-z, 0-9 and '-' is zero. ValidIdentifierChars restates this character by character, so the empty identifier passes. |
| SemanticVersions.TryValidateIdentifiers | lib/nuget_versions/semantic_version.rb:171-173 | every element passes TryValidateIdentifier. ValidateIdentifiers raises exactly when it fails. |
| SemanticVersions.ValidIdentifierChars | lib/nuget_versions/semantic_version.rb:175-177 | an identifier is valid exactly when every character is a letter, a digit or '-' |
| SemanticVersions.ValidIdentifierHasNoSeparator | lib/nuget_versions/semantic_version.rb:175-177 | a valid identifier contains neither '.' nor '+' |
| SemanticVersions.ValidateIdentifier | lib/nuget_versions/semantic_version.rb:167-169 | raises exactly on an invalid identifier |
| SemanticVersions.ValidateIdentifiers | lib/nuget_versions/semantic_version.rb:163-165 | raises exactly when some identifier in the list is invalid |
| SemanticVersions.ValidLabelText | lib/nuget_versions/semantic_version.rb:171-173 | text split on '.' gives valid identifiers exactly when it holds only identifier characters and dots |
| SemanticVersions.CheckLabels | lib/nuget_versions/semantic_version.rb:24-28 | labels given as text are split on '.'. Nil labels or valid identifiers are stored, anything else raises. |
| SemanticVersions.CheckMetadata | lib/nuget_versions/semantic_version.rb:30-31 | nil or a valid identifier is stored, anything else raises |
| SemanticVersions.New | lib/nuget_versions/semantic_version.rb:19-32 | the constructor succeeds exactly when the labels and metadata pass their checks; both default to nil. The new version is valid, strict, and holds exactly the arguments. |
| SemanticVersions.NewWithDefaults | lib/nuget_versions/semantic_version.rb:19 | with the labels and metadata left at their default nil, the constructor cannot raise and the version has neither |
| SemanticVersions.CopyOf | lib/nuget_versions/semantic_version.rb:8-10 | copying a valid version succeeds and gives the same numbers, labels and metadata as a strict version |
| SemanticVersions.Release | lib/nuget_versions/semantic_version.rb:65-68 | `release` is nil without labels, otherwise the labels joined with '.'. ReleaseSplitsBack and ReleaseRoundTrip state its inverses. |
| SemanticVersions.ReleaseSplitsBack | lib/nuget_versions/semantic_version.rb:65-68 | valid labels whose last label is not empty split back out of the text `release` returns |
| SemanticVersions.ReleaseRoundTrip | lib/nuget_versions/semantic_version.rb:65-75 | `release` after `release = s` gives `s` back, for text that does not end in '.' |
| SemanticVersions.IsPrerelease | lib/nuget_versions/semantic_version.rb:77-79 | `is_prerelease?`: labels are present and not all of them are empty |
| SemanticVersions.HasMetadata | lib/nuget_versions/semantic_version.rb:81-83 | `has_metadata?`: metadata is present and not empty |
| SemanticVersions.ToS | lib/nuget_versions/semantic_version.rb:85-91 | `to_s` is "major.minor.patch", then "-" and the release for a prerelease, then "+" and the metadata when there is some. DissectOfToS and ParseOfToS state that `try_parse` reads it back. |
| SemanticVersions.Dissect | lib/nuget_versions/semantic_version.rb:133-145 | the cut text's core parts contain no '-', and its labels do not end in an empty label |
| SemanticVersions.DissectByPosition | lib/nuget_versions/semantic_version.rb:135-145 | `try_parse` cuts the text by position: metadata after the first '+', labels after the first '-' before that, the core before both. It gives nil exactly when the core is empty. |
| SemanticVersions.StrictFromSections | lib/nuget_versions/semantic_version.rb:147-159 | a version built from the pieces has exactly three parts, is valid and strict, and keeps the labels and metadata |
| SemanticVersions.StrictFromSectionsAccepts | lib/nuget_versions/semantic_version.rb:147-157 | the pieces are accepted exactly when there are three digit parts, valid labels and valid metadata. The numbers are the parts' decimal values. |
| SemanticVersions.TryParse | lib/nuget_versions/semantic_version.rb:128-160 | a parsed version comes from non-empty text, is valid and strict, has non-negative numbers, and its labels do not end in an empty label |
| SemanticVersions.TryParseAccepts | lib/nuget_versions/semantic_version.rb:128-160 | the text is accepted exactly when its core is three digit strings, its label text holds only identifier characters and dots, and its metadata only identifier characters |
| SemanticVersions.TryParseFields | lib/nuget_versions/semantic_version.rb:128-160 | an accepted text becomes the core's three decimal values, the label text split on '.', and the text after the first '+' |
| SemanticVersions.MetadataChars | lib/nuget_versions/semantic_version.rb:149 | metadata is accepted exactly when every character is an identifier character |
| SemanticVersions.Parse | lib/nuget_versions/semantic_version.rb:121-126 | `parse` returns `try_parse`'s version and raises "Invalid semantic version value" exactly where that gives nil |
| SemanticVersions.DissectOfToS | lib/nuget_versions/semantic_version.rb:85-91 | the text `to_s` prints cuts back into the decimal numbers, the labels and the metadata |
| SemanticVersions.ParseOfToS | lib/nuget_versions/semantic_version.rb:128-160 | `try_parse(v.to_s) == v` for every version `to_s` can express |
| SemanticVersions.NormalizeKeepsMeaning | lib/nuget_versions/semantic_version.rb:77-91 | empty labels and empty metadata print as nothing. Dropping them leaves the text and the ordering unchanged. |
| SemanticVersions.ToSOfParse | lib/nuget_versions/semantic_version.rb:85-91 | printing a parsed version and parsing again gives its normalized form, which prints the same and compares equal |
| SemanticVersions.Eq | lib/nuget_versions/semantic_version.rb:93-95 | `==` holds when `compare` gives 0 |
| SemanticVersions.Ne | lib/nuget_versions/semantic_version.rb:97-99 | `!=` is the negation of `==` |
| SemanticVersions.Lt | lib/nuget_versions/semantic_version.rb:101-103 | `<` holds when `compare` gives -1 |
| SemanticVersions.Gt | lib/nuget_versions/semantic_version.rb:105-107 | `a > b` is `b < a` |
| SemanticVersions.Le | lib/nuget_versions/semantic_version.rb:109-111 | `a <= b` is `!(b < a)` |
| SemanticVersions.Ge | lib/nuget_versions/semantic_version.rb:113-115 | `a >= b` is `!(a < b)` |
| SemanticVersions.Cmp | lib/nuget_versions/semantic_version.rb:117-119 | `<=>` is `compare` itself. OperatorsConsistent states how the seven operators relate. |
| SemanticVersions.OperatorsConsistent | lib/nuget_versions/semantic_version.rb:93-119 | `>`, `<=`, `>=` and `!=` agree with `compare`. Exactly one of `<`, `==` and `>` holds. |
| SemanticVersions.LessIsStrictOrder | lib/nuget_versions/semantic_version.rb:101-103 | `<` is irreflexive, asymmetric and transitive on versions with non-negative revisions |
| SemanticVersions.SemanticVersion.constructor | lib/nuget_versions/semantic_version.rb:19-32 | the new object holds the valid version the constructor builds |
| SemanticVersions.SemanticVersion.SetMajor | lib/nuget_versions/semantic_version.rb:40-42 | only the major number changes |
| SemanticVersions.SemanticVersion.SetMinor | lib/nuget_versions/semantic_version.rb:44-46 | only the minor number changes |
| SemanticVersions.SemanticVersion.SetPatch | lib/nuget_versions/semantic_version.rb:48-50 | only the patch number changes |
| SemanticVersions.SemanticVersion.SetReleaseLabels | lib/nuget_versions/semantic_version.rb:52-57 | labels given as text are split on '.'. Nil or valid labels replace the old ones; otherwise it raises and nothing changes. The object stays valid. |
| SemanticVersions.SemanticVersion.SetRelease | lib/nuget_versions/semantic_version.rb:70-75 | the text is split on '.' and stored when valid (nil clears the labels); otherwise it raises and nothing changes |
| SemanticVersions.SemanticVersion.SetMetadata | lib/nuget_versions/semantic_version.rb:59-63 | nil or a valid identifier replaces the metadata; otherwise it raises and nothing changes |
| VersionComparer.CompareIdentifiers | lib/nuget_versions/version_comparer.rb:30-43 | identifier comparison is -1, 0 or 1 |
| VersionComparer.CompareLabels | lib/nuget_versions/version_comparer.rb:21-44 | label-list comparison is -1, 0 or 1 |
| VersionComparer.CompareVersions | lib/nuget_versions/version_comparer.rb:9-46 | a smaller major, then minor, then patch number puts a version first |
| VersionComparer.Compare | lib/nuget_versions/version_comparer.rb:4-47 | a present version is above nil, and two nils are equal |
| VersionComparer.CompareIdentifiersAntisymmetric | lib/nuget_versions/version_comparer.rb:30-43 | swapping two identifiers negates their comparison |
| VersionComparer.CompareLabelsAntisymmetric | lib/nuget_versions/version_comparer.rb:21-44 | swapping two label lists negates their comparison |
| VersionComparer.CompareVersionsAntisymmetric | lib/nuget_versions/version_comparer.rb:9-46 | swapping two versions negates their comparison |
| VersionComparer.CompareAntisymmetric | lib/nuget_versions/version_comparer.rb:4-47 | `compare(a, b) == -compare(b, a)`, nil included |
| VersionComparer.CompareLabelsReflexive | lib/nuget_versions/version_comparer.rb:21-44 | a label list compares equal to itself |
| VersionComparer.CompareReflexive | lib/nuget_versions/version_comparer.rb:4-47 | `compare(a, a) == 0` without the identity shortcut of line 5 |
| VersionComparer.CompareIdentifiersTransitive | lib/nuget_versions/version_comparer.rb:30-43 | identifier comparison is transitive: numbers by value, below them alphanumerics by `casecmp` |
| VersionComparer.CompareLabelsTransitive | lib/nuget_versions/version_comparer.rb:21-44 | label-list comparison is transitive |
| VersionComparer.CompareRevisions | lib/nuget_versions/version_comparer.rb:14-19 | the revision step is -1, 0 or 1. Two NuGet versions order by revision. In a mixed pair only a NuGet revision above 0 decides, and it puts the NuGet version above. Two strict versions tie. |
| VersionComparer.CompareRevisionsByValue | lib/nuget_versions/version_comparer.rb:14-19 | for non-negative revisions, the revision step compares revisions by value, with a strict version counting as revision 0 |
| VersionComparer.CompareVersionsTransitive | lib/nuget_versions/version_comparer.rb:9-46 | for non-negative revisions, `compare` is a transitive preorder |
| VersionComparer.CompareEqualTransitive | lib/nuget_versions/version_comparer.rb:9-46 | comparing equal is transitive |
| VersionComparer.CompareStrictTransitive | lib/nuget_versions/version_comparer.rb:9-46 | below, then at most, gives below |
| VersionComparer.CompareEqualOrLess | lib/nuget_versions/version_comparer.rb:9-46 | equal, then below, gives below |
| VersionComparer.NegativeRevisionBreaksTransitivity | lib/nuget_versions/version_comparer.rb:14-19 | with a negative revision, equality is not transitive: revision -1 equals the strict twin, which equals revision 0, yet -1 is below 0 |
| VersionComparer.ShorterPrefixIsGreater | lib/nuget_versions/version_comparer.rb:26-28 | a label list that is a proper prefix of another sorts above it |
| VersionComparer.ReleaseAbovePrerelease | lib/nuget_versions/version_comparer.rb:21-28 | a version with labels sorts below the same version without labels |
| VersionComparer.NumericIdentifiersByValue | lib/nuget_versions/version_comparer.rb:33-37 | the decimal texts of any two integers compare as the integers do, so "2" sorts below "10" and equal values compare equal |
| VersionComparer.NumericAboveAlphanumeric | lib/nuget_versions/version_comparer.rb:40-41 | a numeric identifier sorts above an alphanumeric one |
| VersionComparer.MixedRevisions | lib/nuget_versions/version_comparer.rb:16-18 | against a strict version with the same numbers, a positive NuGet revision wins. A zero revision behaves like a strict version. |
| VersionComparer.RevisionZeroIsStrict | lib/nuget_versions/version_comparer.rb:14-19 | a NuGet version with revision 0 compares like its strict twin against every version with a non-negative revision |
| VersionComparer.MetadataBreaksTies | lib/nuget_versions/version_comparer.rb:46 | versions that differ only in metadata compare by `casecmp` of the metadata, nil as "" |
| VersionComparer.AdjacentOrderExtends | lib/nuget_versions/version_comparer.rb:4-47 | a list whose neighbours ascend is ascending in every pair |
| VersionComparer.GroupedOrder | lib/nuget_versions/version_comparer.rb:4-47 | groups of equal versions with ascending heads compare, across any members, as their group indices do |
| NuGetVersions.New | lib/nuget_versions/nuget_version.rb:21-25 | the NuGet constructor succeeds exactly when the strict one does. It adds the revision, which defaults to 0, and no original text. |
| NuGetVersions.NewWithDefaults | lib/nuget_versions/nuget_version.rb:21 | `NuGetVersion.new(major, minor, patch)` cannot raise, and gives revision 0, no labels, no metadata and no original text |
| NuGetVersions.CopyOf | lib/nuget_versions/nuget_version.rb:6-11 | a copy keeps the numbers, labels and metadata, takes the revision or 0 for a strict version, and drops the original text |
| NuGetVersions.PiecesOf | lib/nuget_versions/nuget_version.rb:71-84 | accepted pieces have two to four parts and valid labels and metadata |
| NuGetVersions.PiecesOfAccepts | lib/nuget_versions/nuget_version.rb:73-84 | the pieces are accepted exactly when there are two to four digit parts and valid labels and metadata. Missing patch and revision are 0. |
| NuGetVersions.FromPieces | lib/nuget_versions/nuget_version.rb:86 | the version built holds exactly the pieces and the revision, and no original text yet |
| NuGetVersions.TryParse | lib/nuget_versions/nuget_version.rb:53-90 | a parsed version comes from non-empty text and is valid. It remembers that text and prints it back, and its numbers and revision are non-negative. |
| NuGetVersions.TryParseAccepts | lib/nuget_versions/nuget_version.rb:53-90 | the text is accepted exactly when its core is two to four digit strings and its label and metadata text are valid |
| NuGetVersions.TryParseFields | lib/nuget_versions/nuget_version.rb:53-90 | an accepted text becomes a version whose numbers are the decimal values of its two to four core parts, with 0 for a missing patch or revision. Its labels are the label text split on '.', its metadata is the metadata text, and the text itself is kept as the original version. |
| NuGetVersions.ParseOfParts | lib/nuget_versions/nuget_version.rb:53-90 | a dotted core of digit strings followed by a canonical label and metadata suffix parses exactly when the core has two to four parts. The numbers are the parts' decimal values, the labels and metadata are those of the suffix, and the text is kept. |
| NuGetVersions.StrictParseIsNuGetParse | lib/nuget_versions/nuget_version.rb:53-90 | text the strict parser accepts parses as NuGet to the same version with revision 0, comparing equal |
| NuGetVersions.PlainCore | lib/nuget_versions/nuget_version.rb:71-84 | a bare dotted core of digit strings parses exactly when it has two to four parts. The numbers are the parts' decimal values, with 0 for a missing patch or revision, and there are no labels or metadata. |
| NuGetVersions.Parse | lib/nuget_versions/nuget_version.rb:46-51 | `parse` returns `try_parse`'s version and raises "Invalid NuGet version value" exactly where that gives nil |
| NuGetVersions.ToS | lib/nuget_versions/nuget_version.rb:35-44 | `to_s` is never empty. A non-empty original text is returned as written. A nil or empty one gives the built text. BuiltTextParts and ParseOfToS state what the built text holds and that `try_parse` reads it back. |
| NuGetVersions.BuiltTextParts | lib/nuget_versions/nuget_version.rb:38-43 | without an original text, `to_s` prints the three or four decimal parts joined by '.', then the suffix |
| NuGetVersions.ParseOfToS | lib/nuget_versions/nuget_version.rb:35-44 | parsing the built text gives the version back, now remembering that text |
| NuGetVersions.ToSWithoutRevision | lib/nuget_versions/nuget_version.rb:35-44 | with revision 0 and no original text, `to_s` prints what the strict `to_s` prints |
| NuGetVersions.SettersKeepOriginalText | lib/nuget_versions/nuget_version.rb:33-36 | changing a number or the labels leaves the original text in place, and `to_s` keeps printing it |
| NuGetVersions.CopyOfComparesEqual | lib/nuget_versions/nuget_version.rb:6-11 | a NuGet copy compares equal to what it copies |
| NuGetVersions.CopyPrintsBuiltText | lib/nuget_versions/nuget_version.rb:6-11 | a NuGet copy has no original text and prints the text built from its fields |
| NuGetVersions.StrictCopyDropsRevision | lib/nuget_versions/semantic_version.rb:8-10 | a strict copy of a NuGet version with a positive revision sorts below it |
| NuGetVersions.NuGetVersion.constructor | lib/nuget_versions/nuget_version.rb:21-25 | the new object holds the valid version the NuGet constructor builds |
| NuGetVersions.NuGetVersion.SetRevision | lib/nuget_versions/nuget_version.rb:29-31 | only the revision changes |
| NuGetVersions.NuGetVersion.SetOriginalVersion | lib/nuget_versions/nuget_version.rb:33 | only the original text changes |
| NuGetVersions.NuGetVersion.SetMajor | lib/nuget_versions/semantic_version.rb:40-42 | the inherited setter changes only the major number; the revision and the original text stay |
| NuGetVersions.NuGetVersion.SetMinor | lib/nuget_versions/semantic_version.rb:44-46 | the inherited setter changes only the minor number |
| NuGetVersions.NuGetVersion.SetPatch | lib/nuget_versions/semantic_version.rb:48-50 | the inherited setter changes only the patch number |
| NuGetVersions.NuGetVersion.SetReleaseLabels | lib/nuget_versions/semantic_version.rb:52-57 | the inherited setter validates and replaces the labels, or raises and changes nothing |
| NuGetVersions.NuGetVersion.SetRelease | lib/nuget_versions/semantic_version.rb:70-75 | the inherited setter splits, validates and replaces the labels, or raises and changes nothing |
| NuGetVersions.NuGetVersion.SetMetadata | lib/nuget_versions/semantic_version.rb:59-63 | the inherited setter validates and replaces the metadata, or raises and changes nothing |
| NuGetVersions.TryParseObject | lib/nuget_versions/nuget_version.rb:86-89 | an object is created exactly when the text parses. It is fresh and holds the parsed version with its original text. |
| VersionFixtures.InOrderIsAscending | tests/tc_semantic_version.rb:425-438 | the ten strict versions of the ordering fixture ascend in every pair |
| VersionFixtures.NuGetInOrderIsAscending | tests/tc_nuget_version.rb:417-431 | the eleven NuGet versions of the ordering test ascend strictly, every pair and not only neighbours |
| VersionFixtures.NuGetInOrderAdjacent | tests/tc_nuget_version.rb:417-431 | each NuGet version of the ordering test sorts strictly below the next one |
| VersionFixtures.NuGetInOrderAdjacentLow | tests/tc_nuget_version.rb:420-425 | the first five neighbour pairs of the NuGet ordering test ascend |
| VersionFixtures.NuGetInOrderAdjacentHigh | tests/tc_nuget_version.rb:425-430 | the last five neighbour pairs of the NuGet ordering test ascend |
| VersionFixtures.ComparerGroupsOrdered | tests/tc_version_comparer.rb:10-49 | every member of the 27 comparer groups compares to every other as the group indices do |
| VersionFixtures.GroupShapes | tests/tc_version_comparer.rb:10-39 | each group is a NuGet version with a non-negative revision, optionally followed by its strict twin |
| VersionFixtures.GroupsEqualWithin | tests/tc_version_comparer.rb:10-39 | the members of a group compare equal to its head |
| VersionFixtures.GroupHeadsAscend | tests/tc_version_comparer.rb:10-39 | consecutive group heads ascend |
| VersionFixtures.ParsesPlainVersion | tests/tc_semantic_version.rb:385-398 | "1.2.3" parses to 1, 2, 3 with no labels or metadata |
| VersionFixtures.ParsesPrerelease | tests/tc_semantic_version.rb:400-405 | "4.5.6-label.7" parses to 4, 5, 6 with labels ["label", "7"] |
| VersionFixtures.StrictRejectsNonNumbers | tests/tc_semantic_version.rb:371-373 | nil, "", "*" and "x" do not parse |
| VersionFixtures.StrictRejectsShortCores | tests/tc_semantic_version.rb:374-375 | "1" and "1.2" do not parse as strict versions |
| VersionFixtures.StrictRejectsFourParts | tests/tc_semantic_version.rb:376 | "1.2.3.4" does not parse as a strict version |
| VersionFixtures.StrictRejectsEmptyCores | tests/tc_semantic_version.rb:380-381 | "-test.1" and "+build.2" do not parse |
| VersionFixtures.NuGetTwoParts | tests/tc_nuget_version.rb:436 | "1.2" parses as NuGet to 1, 2, 0 with revision 0, remembering its text |
| VersionFixtures.NuGetRejectsOnePart | tests/tc_nuget_version.rb:448 | "1" does not parse as NuGet |
| VersionFixtures.NuGetRejectsFiveParts | tests/tc_nuget_version.rb:449 | "1.2.3.4.5" does not parse as NuGet |
| VersionFixtures.NuGetParsesZeroRevision | tests/tc_nuget_version.rb:440 | "5.6.7.0-label.9" parses as NuGet to 5, 6, 7 with revision 0, the labels "label" and "9", no metadata, and the text as the original version |
| VersionFixtures.CopyOfZeroRevisionPrints | tests/tc_nuget_version.rb:161 | a copy of 5.6.7 with revision 0 and the labels "label" and "9" prints "5.6.7-label.9", whatever its original text was |
| VersionFixtures.CopyRewritesZeroRevision | tests/tc_nuget_version.rb:145-162 | "5.6.7.0-label.9" parses, and the result prints its own text back. A copy of it prints "5.6.7-label.9", so copies do not always print their source text. |

## Left out

- **Argument coercion.** Arguments are never coerced. The constructors and setters take integers. `Integer(x, base)` on strings, floats or nil, and `to_s` on non-string parse arguments or labels, are not modelled.
- **Leniency of `Integer`.** RubyText.ParseInteger accepts only an optional '-' followed by decimal digits. Ruby's `Integer(s, 10)` also accepts surrounding whitespace, '_' between digits, a leading '+' and a "0d" prefix. The parsers therefore accept slightly fewer strings than Ruby does. The comparison changes as well: a valid label such as "0d7" is an integer to Ruby (lib/nuget_versions/version_comparer.rb:33-34), so it sorts above an alphanumeric label such as "abc". VersionComparer.CompareIdentifiers treats it as alphanumeric and orders the two by `casecmp`.
- **Object identity and aliasing.** The classes hold values (`seq` for the labels, `string` for the texts). Aliasing of the labels array or of the original text with the caller's object, and mutation of those objects after they are stored, are not modelled.
- **Identity shortcut.** The `equal?` shortcut of `compare` is not modelled separately. CompareReflexive shows it changes no result.
- **Type dispatch.** `kind_of?(NuGetVersion)` and `respond_to?(:revision)` are replaced by the `Flavor` of the version.
- **Inheritance.** NuGetVersion's inheritance from SemanticVersion is modelled as composition: the object holds a `SemanticVersion` in `base`, and the inherited setters delegate to it.
- **Nil operand of `>` and `<=`.** SemanticVersions.Gt and SemanticVersions.Le take a version as their right operand. With nil, Ruby calls `nil < self` and raises NoMethodError, which is not modelled.
- **Setters and the original text.** The library's prose and its tests (tests/tc_nuget_version.rb:164-207) expect the setters to clear a NuGet version's original text. The code does not clear it, and the model follows the code (NuGetVersions.SettersKeepOriginalText).
- **Negative revisions.** The order lemmas (transitivity, GroupedOrder, LessIsStrictOrder) require non-negative revisions. A negative revision, reachable through the constructor or the revision setter, breaks transitivity, as NegativeRevisionBreaksTransitivity shows.
- **Parse examples one by one.** Only some literal parse examples of the tests are stated one by one: the ones in the VersionFixtures rows above. The rest, including those with metadata, are covered only by the general lemmas: SemanticVersions.TryParseAccepts and TryParseFields, NuGetVersions.TryParseAccepts and TryParseFields, and the ParseOfToS lemmas. The ordering lists (InOrder, NuGetInOrder, ComparerGroups) are transcribed from their texts by hand; no lemma ties each entry to a parse.
- **Outside the model.** The test harness, the gem packaging and the `nuget_versions.rb` loader are not part of this model.
