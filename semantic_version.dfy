/**
 * `SemanticVersion`: a strict `MAJOR.MINOR.PATCH[-LABEL(.LABEL)*][+METADATA]`
 * version. The pure part (identifier validation, construction, `release`,
 * `is_prerelease?`, `has_metadata?`, `to_s`, `try_parse`/`parse`, `copy_of`
 * and the comparison operators) works on `Version` values; the class at the
 * end holds the fields that `initialize` and the setters overwrite in place.
 */
module SemanticVersions {
  import opened Wrappers
  import opened RubyText
  import opened VersionModel
  import opened VersionComparer

  // ---------------------------------------------------------------------------
  // Identifier validation
  // ---------------------------------------------------------------------------

  /** A character of the set `A-Za-z0-9-`. */
  predicate IsIdentifierChar(c: char)
  {
    'A' <= c <= 'Z' || 'a' <= c <= 'z' || '0' <= c <= '9' || c == '-'
  }

  /** `identifier.count("^A-Za-z0-9-")`: how many characters lie outside the set. */
  function CountNonIdentifierChars(id: string): nat
  {
    if |id| == 0 then 0
    else (if IsIdentifierChar(id[0]) then 0 else 1) + CountNonIdentifierChars(id[1..])
  }

  /** `try_validate_identifier`: the count of characters outside the set is zero. */
  predicate TryValidateIdentifier(id: string)
  {
    CountNonIdentifierChars(id) == 0
  }

  /**
   * An identifier is valid exactly when every character is a letter, a digit
   * or '-'; in particular the empty identifier is valid.
   */
  lemma {:induction false} ValidIdentifierChars(id: string)
    ensures TryValidateIdentifier(id) <==> forall k :: 0 <= k < |id| ==> IsIdentifierChar(id[k])
  {
    if |id| > 0 {
      ValidIdentifierChars(id[1..]);
      assert forall k :: 1 <= k < |id| ==> id[k] == id[1..][k - 1];
    }
  }

  /** `try_validate_identifiers`: every element passes. */
  predicate TryValidateIdentifiers(ids: seq<string>)
  {
    forall k :: 0 <= k < |ids| ==> TryValidateIdentifier(ids[k])
  }

  /** `validate_identifier`: raises with the identifier in the message when it is invalid. */
  function ValidateIdentifier(id: string): (r: Result<string>)
    ensures r.Success? <==> TryValidateIdentifier(id)
    ensures r.Success? ==> r.value == id
  {
    if TryValidateIdentifier(id) then Success(id)
    else Failure("Invalid semantic version identifier: " + id)
  }

  /** `validate_identifiers`: raises at the first invalid element. */
  function ValidateIdentifiers(ids: seq<string>): (r: Result<seq<string>>)
    ensures r.Success? <==> TryValidateIdentifiers(ids)
    ensures r.Success? ==> r.value == ids
  {
    if |ids| == 0 then Success(ids)
    else match ValidateIdentifier(ids[0])
      case Failure(message) => Failure(message)
      case Success(_) =>
        match ValidateIdentifiers(ids[1..])
        case Failure(message) => Failure(message)
        case Success(_) =>
          assert ids == [ids[0]] + ids[1..];
          Success(ids)
  }

  /** A valid identifier holds neither '.' nor '+'. */
  lemma ValidIdentifierHasNoSeparator(id: string)
    requires TryValidateIdentifier(id)
    ensures '.' !in id && '+' !in id
  {
    ValidIdentifierChars(id);
  }

  /** A character allowed in the text after the first '-': an identifier character or '.'. */
  predicate IsLabelTextChar(c: char)
  {
    IsIdentifierChar(c) || c == '.'
  }

  /**
   * Splitting a label text on '.' gives valid identifiers exactly when the
   * text holds only identifier characters and dots.
   */
  lemma ValidLabelText(t: string)
    ensures TryValidateIdentifiers(Split(t, '.')) <==> forall c :: c in t ==> IsLabelTextChar(c)
  {
    var f := Fields(t, '.');
    var s := Split(t, '.');
    if forall c :: c in t ==> IsLabelTextChar(c) {
      forall j | 0 <= j < |s|
        ensures TryValidateIdentifier(s[j])
      {
        forall k | 0 <= k < |s[j]|
          ensures IsIdentifierChar(s[j][k])
        {
          FieldsChars(t, '.', j, k);
        }
        ValidIdentifierChars(s[j]);
      }
    }
    if TryValidateIdentifiers(s) {
      forall c | c in t
        ensures IsLabelTextChar(c)
      {
        var p :| 0 <= p < |t| && t[p] == c;
        if c != '.' {
          CharInFields(t, '.', p);
          var j, k :| 0 <= j < |f| && 0 <= k < |f[j]| && f[j][k] == c;
          assert j < |s|;
          assert s[j] == f[j];
          ValidIdentifierChars(s[j]);
        }
      }
    }
  }

  // ---------------------------------------------------------------------------
  // Construction and the derived views
  // ---------------------------------------------------------------------------

  /** The two forms `release_labels` may be given in: an Array, or anything else, which is split on '.'. */
  datatype LabelsInput = LabelArray(items: seq<string>) | LabelString(text: string)

  function LabelsOf(x: LabelsInput): seq<string>
  {
    match x
    case LabelArray(items) => items
    case LabelString(text) => Split(text, '.')
  }

  /** Labels and metadata that passed validation: the state every object keeps. */
  predicate Valid(v: Version)
  {
    && (v.releaseLabels.Some? ==> TryValidateIdentifiers(v.releaseLabels.value))
    && (v.metadata.Some? ==> TryValidateIdentifier(v.metadata.value))
  }

  /**
   * How `initialize` and `release_labels=` treat a labels argument: nil stays
   * nil, anything else becomes a list that must validate, or the call raises.
   */
  function CheckLabels(x: Option<LabelsInput>): (r: Result<Option<seq<string>>>)
    ensures r.Success? <==> x.None? || TryValidateIdentifiers(LabelsOf(x.value))
    ensures r.Success? ==> r.value == (if x.None? then None else Some(LabelsOf(x.value)))
  {
    if x.None? then Success(None)
    else match ValidateIdentifiers(LabelsOf(x.value))
      case Failure(message) => Failure(message)
      case Success(labels) => Success(Some(labels))
  }

  /** How `initialize` and `metadata=` treat a metadata argument. */
  function CheckMetadata(x: Option<string>): (r: Result<Option<string>>)
    ensures r.Success? <==> x.None? || TryValidateIdentifier(x.value)
    ensures r.Success? ==> r.value == x
  {
    if x.None? then Success(None)
    else match ValidateIdentifier(x.value)
      case Failure(message) => Failure(message)
      case Success(m) => Success(Some(m))
  }

  /**
   * `SemanticVersion.new(major, minor, patch, release_labels, metadata)`:
   * raises on any invalid identifier, and otherwise stores the numbers, the
   * labels (as given, or split on '.') and the metadata.
   */
  function New(major: int, minor: int, patch: int, labels: Option<LabelsInput> := None, metadata: Option<string> := None)
    : (r: Result<Version>)
    ensures r.Success? <==> CheckLabels(labels).Success? && CheckMetadata(metadata).Success?
    ensures r.Success? ==> Valid(r.value) && r.value.flavor == Strict
    ensures r.Success? ==> r.value.major == major && r.value.minor == minor && r.value.patch == patch
    ensures r.Success? ==> r.value.releaseLabels == (if labels.None? then None else Some(LabelsOf(labels.value)))
    ensures r.Success? ==> r.value.metadata == metadata
  {
    match CheckLabels(labels)
    case Failure(message) => Failure(message)
    case Success(l) =>
      match CheckMetadata(metadata)
      case Failure(message) => Failure(message)
      case Success(m) => Success(Version(major, minor, patch, l, m, Strict))
  }

  /**
   * `SemanticVersion.new(major, minor, patch)`: with the labels and metadata
   * left at their default nil, the constructor cannot raise and the version
   * has neither.
   */
  lemma NewWithDefaults(major: int, minor: int, patch: int)
    ensures New(major, minor, patch).Success?
    ensures New(major, minor, patch).value == Version(major, minor, patch, None, None, Strict)
  {
  }

  function LabelsArgument(labels: Option<seq<string>>): Option<LabelsInput>
  {
    if labels.Some? then Some(LabelArray(labels.value)) else None
  }

  /** `SemanticVersion.copy_of(version)`: a strict version with the same numbers, labels and metadata. */
  function CopyOf(v: Version): (r: Result<Version>)
    ensures Valid(v) ==> r.Success?
    ensures r.Success? ==> r.value == Version(v.major, v.minor, v.patch, v.releaseLabels, v.metadata, Strict)
  {
    New(v.major, v.minor, v.patch, LabelsArgument(v.releaseLabels), v.metadata)
  }

  /** `release`: nil without labels, else the labels joined with '.'. */
  function Release(v: Version): Option<string>
  {
    if v.releaseLabels.None? then None else Some(Join(v.releaseLabels.value, '.'))
  }

  /** Valid labels whose last one is not empty split back out of `release`. */
  lemma ReleaseSplitsBack(v: Version)
    requires v.releaseLabels.Some? && Valid(v)
    requires v.releaseLabels.value == [] || v.releaseLabels.value[|v.releaseLabels.value| - 1] != ""
    ensures Release(v).Some? && Split(Release(v).value, '.') == v.releaseLabels.value
  {
    var labels := v.releaseLabels.value;
    forall k | 0 <= k < |labels|
      ensures '.' !in labels[k]
    {
      ValidIdentifierHasNoSeparator(labels[k]);
    }
    SplitJoin(labels, '.');
  }

  /** `is_prerelease?`: labels are present and not all of them are empty. */
  predicate IsPrerelease(v: Version)
  {
    v.releaseLabels.Some? && !(forall k :: 0 <= k < |v.releaseLabels.value| ==> v.releaseLabels.value[k] == "")
  }

  /** `has_metadata?`: metadata is present and not empty. */
  predicate HasMetadata(v: Version)
  {
    v.metadata.Some? && v.metadata.value != ""
  }

  /** The part of `to_s` after the numbers: "-release" for a prerelease, then "+metadata" if any. */
  function LabelAndMetadataSuffix(v: Version): string
  {
    (if IsPrerelease(v) then "-" + Release(v).value else "")
    + (if HasMetadata(v) then "+" + v.metadata.value else "")
  }

  /** `SemanticVersion#to_s`: "major.minor.patch" followed by the label and metadata suffix. */
  function ToS(v: Version): string
  {
    IntToS(v.major) + "." + IntToS(v.minor) + "." + IntToS(v.patch) + LabelAndMetadataSuffix(v)
  }

  /**
   * `release = s` followed by `release` gives `s` back unless `s` ends in
   * '.', whose empty trailing labels the split drops.
   */
  lemma ReleaseRoundTrip(v: Version, s: string)
    requires s == "" || s[|s| - 1] != '.'
    ensures Release(v.(releaseLabels := Some(LabelsOf(LabelString(s))))) == Some(s)
  {
    LastFieldNonEmpty(s, '.');
    JoinFields(s, '.');
  }

  /** The last field is empty only for the empty string or one ending in the separator. */
  lemma LastFieldNonEmpty(s: string, sep: char)
    requires s == "" || s[|s| - 1] != sep
    ensures DropTrailingEmpty(Fields(s, sep)) == (if s == "" then [] else Fields(s, sep))
  {
    var f := Fields(s, sep);
    if s == "" {
      assert f == [""];
    } else {
      LastField(s, sep);
    }
  }

  /** A non-empty string that does not end in the separator has a non-empty last field. */
  lemma {:induction false} LastField(s: string, sep: char)
    requires s != "" && s[|s| - 1] != sep
    ensures Fields(s, sep)[|Fields(s, sep)| - 1] != ""
    decreases |s|
  {
    var i := IndexOf(s, sep);
    if i < |s| {
      var rest := s[i + 1..];
      assert rest[|rest| - 1] == s[|s| - 1];
      LastField(rest, sep);
      assert Fields(s, sep) == [s[..i]] + Fields(rest, sep);
    }
  }

  // ---------------------------------------------------------------------------
  // Parsing
  // ---------------------------------------------------------------------------

  /** The three sections of a version string, before validation. */
  datatype Sections = Sections(parts: seq<string>, labels: Option<seq<string>>, metadata: Option<string>)

  /**
   * The cutting common to both `try_parse` methods: split once at '+' (what
   * follows is the metadata), split the rest once at '-' (what follows,
   * split on '.', is the labels) and split the remaining core on '.'.
   * `None` where the text before the '+' is empty.
   */
  function Dissect(s: string): (r: Option<Sections>)
    requires s != ""
    ensures r.Some? ==> forall k :: 0 <= k < |r.value.parts| ==> '-' !in r.value.parts[k]
    ensures r.Some? && r.value.labels.Some? ==>
              var l := r.value.labels.value; l == [] || l[|l| - 1] != ""
  {
    var plus := SplitOnce(s, '+');
    var metadata := if |plus| == 2 then Some(plus[1]) else None;
    var minus := SplitOnce(plus[0], '-');
    if minus == [] then None
    else
      var labels := if |minus| == 2 then Some(Split(minus[1], '.')) else None;
      SplitAvoids(minus[0], '.', '-');
      Some(Sections(Split(minus[0], '.'), labels, metadata))
  }

  /** Every field of a text without `c` is without `c`. */
  lemma SplitAvoids(t: string, sep: char, c: char)
    requires c !in t
    ensures forall j :: 0 <= j < |Split(t, sep)| ==> c !in Split(t, sep)[j]
  {
    forall j, k | 0 <= j < |Split(t, sep)| && 0 <= k < |Split(t, sep)[j]|
      ensures Split(t, sep)[j][k] != c
    {
      FieldsChars(t, sep, j, k);
    }
  }

  /** The metadata text: everything after the first '+', if there is one. */
  function MetadataText(s: string): Option<string>
  {
    var i := IndexOf(s, '+');
    if i < |s| then Some(s[i + 1..]) else None
  }

  /** The text before the first '+'. */
  function HeadText(s: string): string
  {
    s[..IndexOf(s, '+')]
  }

  /** The label text: what follows the first '-' before the first '+', if any. */
  function LabelText(s: string): Option<string>
  {
    var h := HeadText(s);
    var j := IndexOf(h, '-');
    if j < |h| then Some(h[j + 1..]) else None
  }

  /** The numeric core: the text before the first '-' and the first '+'. */
  function CoreText(s: string): string
  {
    var h := HeadText(s);
    h[..IndexOf(h, '-')]
  }

  /** The sections `Dissect` finds, stated by position in the text. */
  lemma DissectByPosition(s: string)
    requires s != ""
    ensures Dissect(s).None? <==> HeadText(s) == ""
    ensures Dissect(s).Some? ==> Dissect(s).value == Sections(
              Split(CoreText(s), '.'),
              if LabelText(s).Some? then Some(Split(LabelText(s).value, '.')) else None,
              MetadataText(s))
  {
    var i := IndexOf(s, '+');
    var plus := SplitOnce(s, '+');
    if i == |s| {
      assert plus == [s];
      assert HeadText(s) == s;
    } else {
      assert s == s[..i] + ['+'] + s[i + 1..];
      SplitOnceAt(s[..i], '+', s[i + 1..]);
    }
    var h := HeadText(s);
    var j := IndexOf(h, '-');
    if h != "" {
      if j == |h| {
        SplitOnceNone(h, '-');
        assert CoreText(s) == h;
      } else {
        assert h == h[..j] + ['-'] + h[j + 1..];
        SplitOnceAt(h[..j], '-', h[j + 1..]);
      }
    }
  }

  /**
   * Lines 147-157 of `try_parse`, once the text is cut: exactly three parts,
   * valid labels and metadata, and three integers; else nil.
   */
  function StrictFromSections(sections: Sections): (r: Option<Version>)
    ensures r.Some? ==> |sections.parts| == 3
    ensures r.Some? ==> Valid(r.value) && r.value.flavor == Strict
    ensures r.Some? ==> r.value.releaseLabels == sections.labels && r.value.metadata == sections.metadata
  {
    var parts := sections.parts;
    if |parts| != 3 then None
    else if sections.labels.Some? && !TryValidateIdentifiers(sections.labels.value) then None
    else if sections.metadata.Some? && !TryValidateIdentifier(sections.metadata.value) then None
    else
      var major := ParseInteger(parts[0]);
      var minor := ParseInteger(parts[1]);
      var patch := ParseInteger(parts[2]);
      if major.None? || minor.None? || patch.None? then None
      else
        match New(major.value, minor.value, patch.value, LabelsArgument(sections.labels), sections.metadata)
        case Success(v) => Some(v)
        case Failure(_) => None
  }

  /**
   * `SemanticVersion.try_parse(value)`: nil for nil or empty input, for a
   * core that does not split into exactly three parts, for a part that is
   * not an integer and for an invalid label or metadata identifier; else the
   * version built from the pieces.
   */
  function TryParse(value: Option<string>): (r: Option<Version>)
    ensures r.Some? ==> value.Some? && value.value != ""
    ensures r.Some? ==> Valid(r.value) && r.value.flavor == Strict
    ensures r.Some? ==> r.value.major >= 0 && r.value.minor >= 0 && r.value.patch >= 0
    ensures r.Some? && r.value.releaseLabels.Some? ==>
              var l := r.value.releaseLabels.value; l == [] || l[|l| - 1] != ""
  {
    if value.None? then None
    else if value.value == "" then None
    else
      match Dissect(value.value)
      case None => None
      case Some(sections) => StrictFromSections(sections)
  }

  /** `SemanticVersion.parse(value)`: `try_parse`'s version, raising exactly where it gives nil. */
  function Parse(value: Option<string>): (r: Result<Version>)
    ensures r.Success? <==> TryParse(value).Some?
    ensures r.Success? ==> r.value == TryParse(value).value
    ensures r.Failure? ==> r.message == "Invalid semantic version value"
  {
    match TryParse(value)
    case None => Failure("Invalid semantic version value")
    case Some(v) => Success(v)
  }

  /** The checks of `StrictFromSections`, on parts without '-'. */
  lemma StrictFromSectionsAccepts(sections: Sections)
    requires forall k :: 0 <= k < |sections.parts| ==> '-' !in sections.parts[k]
    ensures StrictFromSections(sections).Some? <==>
              && |sections.parts| == 3
              && IsDigits(sections.parts[0]) && IsDigits(sections.parts[1]) && IsDigits(sections.parts[2])
              && (sections.labels.Some? ==> TryValidateIdentifiers(sections.labels.value))
              && (sections.metadata.Some? ==> TryValidateIdentifier(sections.metadata.value))
    ensures StrictFromSections(sections).Some? ==>
              var v := StrictFromSections(sections).value;
              v.major == DigitsValue(sections.parts[0]) && v.minor == DigitsValue(sections.parts[1])
              && v.patch == DigitsValue(sections.parts[2])
  {
  }

  /**
   * Which strings `try_parse` accepts, by position: the core splits on '.'
   * into exactly three digit strings, the label text holds only identifier
   * characters and dots, and the metadata only identifier characters.
   */
  lemma TryParseAccepts(s: string)
    ensures TryParse(Some(s)).Some? <==>
              && |Split(CoreText(s), '.')| == 3
              && IsDigits(Split(CoreText(s), '.')[0])
              && IsDigits(Split(CoreText(s), '.')[1])
              && IsDigits(Split(CoreText(s), '.')[2])
              && (LabelText(s).Some? ==> forall c :: c in LabelText(s).value ==> IsLabelTextChar(c))
              && (MetadataText(s).Some? ==> forall c :: c in MetadataText(s).value ==> IsIdentifierChar(c))
  {
    if s == "" || HeadText(s) == "" {
      assert CoreText(s) == "";
      assert Fields("", '.') == [""];
      if s != "" {
        DissectByPosition(s);
      }
    } else {
      DissectByPosition(s);
      StrictFromSectionsAccepts(Dissect(s).value);
      if LabelText(s).Some? {
        ValidLabelText(LabelText(s).value);
      }
      if MetadataText(s).Some? {
        MetadataChars(MetadataText(s).value);
      }
    }
  }

  /** A metadata identifier is valid exactly when every character is an identifier character. */
  lemma MetadataChars(m: string)
    ensures TryValidateIdentifier(m) <==> forall c :: c in m ==> IsIdentifierChar(c)
  {
    ValidIdentifierChars(m);
  }

  /**
   * What an accepted string becomes: the three core numbers, the label text
   * split on '.' (nil without a '-'), and everything after the first '+'
   * (nil without a '+').
   */
  lemma TryParseFields(s: string)
    requires TryParse(Some(s)).Some?
    ensures var v := TryParse(Some(s)).value;
            var parts := Split(CoreText(s), '.');
            && |parts| == 3 && IsDigits(parts[0]) && IsDigits(parts[1]) && IsDigits(parts[2])
            && v.major == DigitsValue(parts[0])
            && v.minor == DigitsValue(parts[1])
            && v.patch == DigitsValue(parts[2])
            && v.releaseLabels == (if LabelText(s).Some? then Some(Split(LabelText(s).value, '.')) else None)
            && v.metadata == MetadataText(s)
  {
    DissectByPosition(s);
    StrictFromSectionsAccepts(Dissect(s).value);
  }

  // ---------------------------------------------------------------------------
  // Round trips between to_s and try_parse
  // ---------------------------------------------------------------------------

  /**
   * Labels and metadata that `to_s` prints and `try_parse` reads back
   * unchanged: valid identifiers, labels absent or ending in a non-empty
   * label, metadata absent or non-empty.
   */
  predicate CanonicalSuffix(v: Version)
  {
    && Valid(v)
    && (v.releaseLabels.Some? ==> |v.releaseLabels.value| > 0 && v.releaseLabels.value[|v.releaseLabels.value| - 1] != "")
    && (v.metadata.Some? ==> v.metadata.value != "")
  }

  /** A strict version that `to_s` can express: numbers of at least 0 and a canonical suffix. */
  predicate Canonical(v: Version)
  {
    && v.flavor == Strict
    && v.major >= 0 && v.minor >= 0 && v.patch >= 0
    && CanonicalSuffix(v)
  }

  /** The canonical version a parsed one prints as: an empty label list or empty metadata becomes nil. */
  function Normalize(v: Version): Version
  {
    v.(releaseLabels := if v.releaseLabels == Some([]) then None else v.releaseLabels,
       metadata := if v.metadata == Some("") then None else v.metadata)
  }

  lemma DigitsAvoid(d: string)
    requires IsDigits(d)
    ensures '.' !in d && '-' !in d && '+' !in d
  {
    assert forall k :: 0 <= k < |d| ==> IsDigit(d[k]);
  }

  /** The label text `to_s` prints for valid labels, and what it does not contain. */
  lemma LabelsTextOfValid(labels: seq<string>)
    requires TryValidateIdentifiers(labels)
    requires |labels| > 0 && labels[|labels| - 1] != ""
    ensures '+' !in Join(labels, '.')
    ensures Split(Join(labels, '.'), '.') == labels
  {
    forall k | 0 <= k < |labels|
      ensures '.' !in labels[k] && '+' !in labels[k]
    {
      ValidIdentifierHasNoSeparator(labels[k]);
    }
    JoinAvoids(labels, '.', '+');
    SplitJoin(labels, '.');
  }

  /** Digit strings joined with '.': a non-empty text without '-' or '+' that splits back. */
  lemma JoinedDigits(parts: seq<string>)
    requires |parts| > 0 && forall k :: 0 <= k < |parts| ==> IsDigits(parts[k])
    ensures Join(parts, '.') != ""
    ensures '-' !in Join(parts, '.') && '+' !in Join(parts, '.')
    ensures Split(Join(parts, '.'), '.') == parts
  {
    forall k | 0 <= k < |parts|
      ensures '.' !in parts[k] && '-' !in parts[k] && '+' !in parts[k]
    {
      DigitsAvoid(parts[k]);
    }
    JoinAvoids(parts, '.', '-');
    JoinAvoids(parts, '.', '+');
    SplitJoin(parts, '.');
    assert Fields("", '.') == [""];
  }

  /** A non-empty core without '-' or '+', followed by a canonical suffix, is cut back into its pieces. */
  lemma DissectOfHead(core: string, v: Version)
    requires core != "" && '-' !in core && '+' !in core
    requires CanonicalSuffix(v)
    ensures core + LabelAndMetadataSuffix(v) != ""
    ensures Dissect(core + LabelAndMetadataSuffix(v)) == Some(Sections(Split(core, '.'), v.releaseLabels, v.metadata))
  {
    var lab := "";
    if v.releaseLabels.Some? {
      LabelsTextOfValid(v.releaseLabels.value);
      lab := "-" + Join(v.releaseLabels.value, '.');
      assert IsPrerelease(v);
      assert core + lab == core + ['-'] + Join(v.releaseLabels.value, '.');
      SplitOnceAt(core, '-', Join(v.releaseLabels.value, '.'));
    } else {
      SplitOnceNone(core, '-');
    }
    var head := core + lab;
    assert '+' !in head;
    var text := core + LabelAndMetadataSuffix(v);
    if v.metadata.Some? {
      ValidIdentifierHasNoSeparator(v.metadata.value);
      assert text == head + ['+'] + v.metadata.value;
      SplitOnceAt(head, '+', v.metadata.value);
    } else {
      assert text == head;
      SplitOnceNone(head, '+');
      assert SplitOnce(text, '+') == [head];
    }
    var minus := SplitOnce(head, '-');
    assert minus != [] && minus[0] == core;
    assert |minus| == 2 <==> v.releaseLabels.Some?;
  }

  /**
   * Cutting digit strings joined with '.' and followed by a canonical
   * suffix gives back the digit strings, the labels and the metadata.
   */
  lemma DissectOfText(parts: seq<string>, v: Version)
    requires |parts| > 0 && forall k :: 0 <= k < |parts| ==> IsDigits(parts[k])
    requires CanonicalSuffix(v)
    ensures Join(parts, '.') + LabelAndMetadataSuffix(v) != ""
    ensures Dissect(Join(parts, '.') + LabelAndMetadataSuffix(v)) == Some(Sections(parts, v.releaseLabels, v.metadata))
  {
    JoinedDigits(parts);
    DissectOfHead(Join(parts, '.'), v);
  }

  /** The text of a canonical version, with the suffix written out. */
  lemma CanonicalText(v: Version)
    requires CanonicalSuffix(v)
    ensures LabelAndMetadataSuffix(v)
            == (if v.releaseLabels.Some? then "-" + Join(v.releaseLabels.value, '.') else "")
               + (if v.metadata.Some? then "+" + v.metadata.value else "")
  {
    if v.releaseLabels.Some? {
      assert v.releaseLabels.value[|v.releaseLabels.value| - 1] != "";
    }
  }

  /** `Join` of three strings, written out. */
  lemma JoinThree(a: string, b: string, c: string, sep: char)
    ensures Join([a, b, c], sep) == a + [sep] + b + [sep] + c
  {
    assert [a, b, c][1..] == [b, c];
    assert [b, c][1..] == [c];
    assert Join([b, c], sep) == b + [sep] + c;
    assert Join([a, b, c], sep) == a + [sep] + (b + [sep] + c);
  }

  /** Cutting the text of a canonical version gives back its numbers, labels and metadata. */
  lemma DissectOfToS(v: Version)
    requires Canonical(v)
    ensures Dissect(ToS(v)) == Some(Sections([NatToS(v.major), NatToS(v.minor), NatToS(v.patch)], v.releaseLabels, v.metadata))
  {
    var parts := [NatToS(v.major), NatToS(v.minor), NatToS(v.patch)];
    JoinThree(NatToS(v.major), NatToS(v.minor), NatToS(v.patch), '.');
    assert IntToS(v.major) == NatToS(v.major) && IntToS(v.minor) == NatToS(v.minor) && IntToS(v.patch) == NatToS(v.patch);
    assert ToS(v) == Join(parts, '.') + LabelAndMetadataSuffix(v);
    DissectOfText(parts, v);
  }

  /** `try_parse(v.to_s)` rebuilds every canonical strict version exactly. */
  lemma ParseOfToS(v: Version)
    requires Canonical(v)
    ensures TryParse(Some(ToS(v))) == Some(v)
  {
    DissectOfToS(v);
    var sections := Dissect(ToS(v)).value;
    StrictFromSectionsAccepts(sections);
    DigitsValueNatToS(v.major);
    DigitsValueNatToS(v.minor);
    DigitsValueNatToS(v.patch);
    var r := StrictFromSections(sections).value;
    assert r.major == v.major && r.minor == v.minor && r.patch == v.patch;
    assert r.releaseLabels == v.releaseLabels && r.metadata == v.metadata;
  }

  /**
   * A version with the shape `try_parse` gives has a canonical normal form
   * that prints the same and compares equal to it.
   */
  lemma NormalizeKeepsMeaning(v: Version)
    requires v.flavor == Strict && v.major >= 0 && v.minor >= 0 && v.patch >= 0 && Valid(v)
    requires v.releaseLabels.Some? ==> var l := v.releaseLabels.value; l == [] || l[|l| - 1] != ""
    ensures Canonical(Normalize(v))
    ensures ToS(Normalize(v)) == ToS(v)
    ensures CompareVersions(Normalize(v), v) == 0
  {
    var n := Normalize(v);
    assert LabelAndMetadataSuffix(n) == LabelAndMetadataSuffix(v);
    assert LabelsOrEmpty(n) == LabelsOrEmpty(v) && MetadataOrEmpty(n) == MetadataOrEmpty(v);
    CompareLabelsReflexive(LabelsOrEmpty(v));
    CaseCmpZero(MetadataOrEmpty(v), MetadataOrEmpty(v));
  }

  /**
   * Printing a parsed version and parsing the text again gives its
   * normalized form, which prints the same and compares equal to it.
   */
  lemma ToSOfParse(s: string)
    requires TryParse(Some(s)).Some?
    ensures var v := TryParse(Some(s)).value;
            && Canonical(Normalize(v))
            && ToS(Normalize(v)) == ToS(v)
            && TryParse(Some(ToS(v))) == Some(Normalize(v))
            && CompareVersions(Normalize(v), v) == 0
  {
    var v := TryParse(Some(s)).value;
    NormalizeKeepsMeaning(v);
    ParseOfToS(Normalize(v));
  }

  // ---------------------------------------------------------------------------
  // Comparison operators, all derived from VersionComparer.compare
  // ---------------------------------------------------------------------------

  /** `a == b` */
  predicate Eq(a: Version, b: Option<Version>) { Compare(Some(a), b) == 0 }

  /** `a != b` */
  predicate Ne(a: Version, b: Option<Version>) { !Eq(a, b) }

  /** `a < b` */
  predicate Lt(a: Version, b: Option<Version>) { Compare(Some(a), b) == -1 }

  /** `a > b`, defined as `b < a` (so `b` may not be nil) */
  predicate Gt(a: Version, b: Version) { Lt(b, Some(a)) }

  /** `a <= b`, defined as `!(b < a)` */
  predicate Le(a: Version, b: Version) { !Lt(b, Some(a)) }

  /** `a >= b`, defined as `!(a < b)` */
  predicate Ge(a: Version, b: Option<Version>) { !Lt(a, b) }

  /** `a <=> b` */
  function Cmp(a: Version, b: Option<Version>): int { Compare(Some(a), b) }

  /**
   * The operators agree with one another: exactly one of `<`, `==`, `>`
   * holds, `<=` is `<` or `==`, and `>=` is `>` or `==`.
   */
  lemma OperatorsConsistent(a: Version, b: Version)
    ensures Gt(a, b) <==> Compare(Some(a), Some(b)) == 1
    ensures Le(a, b) <==> Compare(Some(a), Some(b)) <= 0
    ensures Ge(a, Some(b)) <==> Compare(Some(a), Some(b)) >= 0
    ensures (if Lt(a, Some(b)) then 1 else 0) + (if Eq(a, Some(b)) then 1 else 0) + (if Gt(a, b) then 1 else 0) == 1
    ensures Le(a, b) <==> Lt(a, Some(b)) || Eq(a, Some(b))
    ensures Ge(a, Some(b)) <==> Gt(a, b) || Eq(a, Some(b))
    ensures Ne(a, Some(b)) <==> Lt(a, Some(b)) || Gt(a, b)
    ensures Cmp(a, Some(b)) == -Cmp(b, Some(a))
    ensures Cmp(a, None) == 1 && Ge(a, None) && Ne(a, None)
  {
    CompareAntisymmetric(Some(a), Some(b));
  }

  /** `<` is a strict order on versions whose revisions are at least 0. */
  lemma LessIsStrictOrder(a: Version, b: Version, c: Version)
    requires RevisionNonNegative(a) && RevisionNonNegative(b) && RevisionNonNegative(c)
    ensures !Lt(a, Some(a))
    ensures Lt(a, Some(b)) ==> !Lt(b, Some(a))
    ensures Lt(a, Some(b)) && Lt(b, Some(c)) ==> Lt(a, Some(c))
  {
    CompareReflexive(Some(a));
    CompareAntisymmetric(Some(a), Some(b));
    if Lt(a, Some(b)) && Lt(b, Some(c)) {
      CompareStrictTransitive(a, b, c);
    }
  }

  // ---------------------------------------------------------------------------
  // The object
  // ---------------------------------------------------------------------------

  /** A `SemanticVersion` object: fields that `initialize` and the setters overwrite. */
  class SemanticVersion {
    var major: int
    var minor: int
    var patch: int
    var releaseLabels: Option<seq<string>>
    var metadata: Option<string>

    /** The object's fields as a value. */
    function Value(): Version
      reads this
    {
      Version(major, minor, patch, releaseLabels, metadata, Strict)
    }

    /** `SemanticVersion.new(...)`; the raising case is `New`'s failure. */
    constructor (major: int, minor: int, patch: int, labels: Option<LabelsInput> := None, metadata: Option<string> := None)
      requires New(major, minor, patch, labels, metadata).Success?
      ensures Valid(Value())
      ensures Value() == New(major, minor, patch, labels, metadata).value
    {
      this.major := major;
      this.minor := minor;
      this.patch := patch;
      this.releaseLabels := if labels.Some? then Some(LabelsOf(labels.value)) else None;
      this.metadata := metadata;
    }

    /** `major = n` */
    method SetMajor(n: int)
      modifies this
      ensures Value() == old(Value()).(major := n)
    {
      major := n;
    }

    /** `minor = n` */
    method SetMinor(n: int)
      modifies this
      ensures Value() == old(Value()).(minor := n)
    {
      minor := n;
    }

    /** `patch = n` */
    method SetPatch(n: int)
      modifies this
      ensures Value() == old(Value()).(patch := n)
    {
      patch := n;
    }

    /**
     * `release_labels = x`: nil clears the labels; otherwise the list (as
     * given, or the string split on '.') is stored if every identifier is
     * valid, and the call raises (`ok` false) leaving the object unchanged.
     */
    method SetReleaseLabels(x: Option<LabelsInput>) returns (ok: bool)
      requires Valid(Value())
      modifies this
      ensures ok <==> x.None? || TryValidateIdentifiers(LabelsOf(x.value))
      ensures Valid(Value())
      ensures ok ==> Value() == old(Value()).(releaseLabels := if x.None? then None else Some(LabelsOf(x.value)))
      ensures !ok ==> Value() == old(Value())
    {
      match CheckLabels(x)
      case Failure(_) =>
        ok := false;
      case Success(labels) =>
        releaseLabels := labels;
        ok := true;
    }

    /** `release = s`: as `release_labels =` with a string, which is split on '.'. */
    method SetRelease(s: Option<string>) returns (ok: bool)
      requires Valid(Value())
      modifies this
      ensures ok <==> s.None? || TryValidateIdentifiers(Split(s.value, '.'))
      ensures Valid(Value())
      ensures ok ==> Value() == old(Value()).(releaseLabels := if s.None? then None else Some(Split(s.value, '.')))
      ensures !ok ==> Value() == old(Value())
    {
      ok := SetReleaseLabels(if s.None? then None else Some(LabelString(s.value)));
    }

    /** `metadata = m`: nil clears it; otherwise it is stored if valid, else the call raises. */
    method SetMetadata(m: Option<string>) returns (ok: bool)
      requires Valid(Value())
      modifies this
      ensures ok <==> m.None? || TryValidateIdentifier(m.value)
      ensures Valid(Value())
      ensures ok ==> Value() == old(Value()).(metadata := m)
      ensures !ok ==> Value() == old(Value())
    {
      match CheckMetadata(m)
      case Failure(_) =>
        ok := false;
      case Success(meta) =>
        metadata := meta;
        ok := true;
    }
  }
}
