/**
 * `NuGetVersion`: a `SemanticVersion` with a fourth number, the revision,
 * and the text it was parsed from.  Accepts two to four numeric parts.
 */
module NuGetVersions {
  import opened Wrappers
  import opened RubyText
  import opened VersionModel
  import opened VersionComparer
  import SemanticVersions

  /**
   * `NuGetVersion.new(major, minor, patch, revision, labels, metadata)`:
   * the strict constructor's checks (it raises on an invalid label or
   * metadata identifier), then the revision; the original text is nil.
   */
  function New(major: int, minor: int, patch: int, revision: int := 0,
               labels: Option<SemanticVersions.LabelsInput> := None, metadata: Option<string> := None)
    : (r: Result<Version>)
    ensures r.Success? <==> SemanticVersions.New(major, minor, patch, labels, metadata).Success?
    ensures r.Success? ==> SemanticVersions.Valid(r.value) && r.value.flavor == NuGet(revision, None)
    ensures r.Success? ==> r.value.major == major && r.value.minor == minor && r.value.patch == patch
    ensures r.Success? ==> r.value.releaseLabels == (if labels.None? then None else Some(SemanticVersions.LabelsOf(labels.value)))
    ensures r.Success? ==> r.value.metadata == metadata
  {
    match SemanticVersions.New(major, minor, patch, labels, metadata)
    case Failure(message) => Failure(message)
    case Success(v) => Success(v.(flavor := NuGet(revision, None)))
  }

  /**
   * `NuGetVersion.new(major, minor, patch)`: the revision defaults to 0 and
   * the labels and metadata to nil, so the constructor cannot raise.
   */
  lemma NewWithDefaults(major: int, minor: int, patch: int)
    ensures New(major, minor, patch).Success?
    ensures New(major, minor, patch).value == Version(major, minor, patch, None, None, NuGet(0, None))
  {
  }

  /**
   * `NuGetVersion.copy_of(version)`: the same numbers, labels and metadata,
   * the revision of a NuGet version or 0 for a strict one, no original text.
   */
  function CopyOf(v: Version): (r: Result<Version>)
    ensures r.Success? <==> SemanticVersions.Valid(v)
    ensures r.Success? ==> r.value == v.(flavor := NuGet(EffectiveRevision(v), None))
  {
    New(v.major, v.minor, v.patch, EffectiveRevision(v), SemanticVersions.LabelsArgument(v.releaseLabels), v.metadata)
  }

  /** The text `to_s` builds when there is no original text to return. */
  function BuiltText(v: Version): string
  {
    IntToS(v.major) + "." + IntToS(v.minor) + "." + IntToS(v.patch)
    + (if EffectiveRevision(v) != 0 then "." + IntToS(EffectiveRevision(v)) else "")
    + SemanticVersions.LabelAndMetadataSuffix(v)
  }

  /**
   * `NuGetVersion#to_s`: the original text when it is present and not
   * empty; otherwise "major.minor.patch", ".revision" when the revision is
   * not 0, then the label and metadata suffix.
   */
  function ToS(v: Version): (r: string)
    requires v.flavor.NuGet?
    ensures r != ""
    ensures v.flavor.originalVersion.Some? && v.flavor.originalVersion.value != "" ==> r == v.flavor.originalVersion.value
    ensures v.flavor.originalVersion.None? || v.flavor.originalVersion.value == "" ==> r == BuiltText(v)
  {
    var original := v.flavor.originalVersion;
    if original.Some? && original.value != "" then original.value else BuiltText(v)
  }

  /** The numbers, labels and metadata `try_parse` hands to `NuGetVersion.new`. */
  datatype Pieces = Pieces(major: int, minor: int, patch: int, revision: int,
                           labels: Option<seq<string>>, metadata: Option<string>)

  /**
   * Lines 73-84 of `try_parse`, once the text is cut: two to four parts,
   * valid labels and metadata, and integers for every part present (0 for
   * a missing patch or revision); else nil.
   */
  function PiecesOf(sections: SemanticVersions.Sections): (r: Option<Pieces>)
    ensures r.Some? ==> 2 <= |sections.parts| <= 4
    ensures r.Some? ==> r.value.labels == sections.labels && r.value.metadata == sections.metadata
    ensures r.Some? && r.value.labels.Some? ==> SemanticVersions.TryValidateIdentifiers(r.value.labels.value)
    ensures r.Some? && r.value.metadata.Some? ==> SemanticVersions.TryValidateIdentifier(r.value.metadata.value)
  {
    var parts := sections.parts;
    if |parts| < 2 || |parts| > 4 then None
    else if sections.labels.Some? && !SemanticVersions.TryValidateIdentifiers(sections.labels.value) then None
    else if sections.metadata.Some? && !SemanticVersions.TryValidateIdentifier(sections.metadata.value) then None
    else
      var major := ParseInteger(parts[0]);
      var minor := ParseInteger(parts[1]);
      var patch := if |parts| >= 3 then ParseInteger(parts[2]) else Some(0);
      var revision := if |parts| >= 4 then ParseInteger(parts[3]) else Some(0);
      if major.None? || minor.None? || patch.None? || revision.None? then None
      else Some(Pieces(major.value, minor.value, patch.value, revision.value, sections.labels, sections.metadata))
  }

  /** Lines 54-84 of `try_parse`: nil or empty input, or a text whose head is empty, gives nil. */
  function ParsePieces(value: Option<string>): Option<Pieces>
  {
    if value.None? || value.value == "" then None
    else
      match SemanticVersions.Dissect(value.value)
      case None => None
      case Some(sections) => PiecesOf(sections)
  }

  /** The version `NuGetVersion.new` builds from accepted pieces. */
  function FromPieces(p: Pieces): (r: Option<Version>)
    requires p.labels.Some? ==> SemanticVersions.TryValidateIdentifiers(p.labels.value)
    requires p.metadata.Some? ==> SemanticVersions.TryValidateIdentifier(p.metadata.value)
    ensures r == Some(Version(p.major, p.minor, p.patch, p.labels, p.metadata, NuGet(p.revision, None)))
  {
    match New(p.major, p.minor, p.patch, p.revision, SemanticVersions.LabelsArgument(p.labels), p.metadata)
    case Failure(_) => None
    case Success(v) => Some(v)
  }

  /**
   * `NuGetVersion.try_parse(value)`: nil where the pieces are rejected;
   * else the version built from them, remembering the text it came from,
   * so that `to_s` gives that text back.
   */
  function TryParse(value: Option<string>): (r: Option<Version>)
    ensures r.Some? <==> ParsePieces(value).Some?
    ensures r.Some? ==> value.Some? && value.value != ""
    ensures r.Some? ==> SemanticVersions.Valid(r.value) && r.value.flavor.NuGet? && r.value.flavor.originalVersion == value
    ensures r.Some? ==> ToS(r.value) == value.value
    ensures r.Some? ==> r.value.major >= 0 && r.value.minor >= 0 && r.value.patch >= 0 && EffectiveRevision(r.value) >= 0
  {
    match ParsePieces(value)
    case None => None
    case Some(p) =>
      var v := FromPieces(p).value;
      Some(v.(flavor := NuGet(p.revision, value)))
  }

  /** `NuGetVersion.parse(value)`: `try_parse`'s version, raising exactly where it gives nil. */
  function Parse(value: Option<string>): (r: Result<Version>)
    ensures r.Success? <==> TryParse(value).Some?
    ensures r.Success? ==> r.value == TryParse(value).value
    ensures r.Failure? ==> r.message == "Invalid NuGet version value"
  {
    match TryParse(value)
    case None => Failure("Invalid NuGet version value")
    case Some(v) => Success(v)
  }

  // ---------------------------------------------------------------------------
  // What try_parse accepts
  // ---------------------------------------------------------------------------

  /** The checks of `PiecesOf`, on parts without '-'. */
  lemma PiecesOfAccepts(sections: SemanticVersions.Sections)
    requires forall k :: 0 <= k < |sections.parts| ==> '-' !in sections.parts[k]
    ensures PiecesOf(sections).Some? <==>
              && 2 <= |sections.parts| <= 4
              && (forall k :: 0 <= k < |sections.parts| ==> IsDigits(sections.parts[k]))
              && (sections.labels.Some? ==> SemanticVersions.TryValidateIdentifiers(sections.labels.value))
              && (sections.metadata.Some? ==> SemanticVersions.TryValidateIdentifier(sections.metadata.value))
    ensures PiecesOf(sections).Some? ==>
              var p := PiecesOf(sections).value;
              var parts := sections.parts;
              && p.major == DigitsValue(parts[0]) && p.minor == DigitsValue(parts[1])
              && p.patch == (if |parts| >= 3 then DigitsValue(parts[2]) else 0)
              && p.revision == (if |parts| == 4 then DigitsValue(parts[3]) else 0)
  {
  }

  /**
   * Which strings `try_parse` accepts, by position: the core splits on '.'
   * into two to four digit strings, the label text holds only identifier
   * characters and dots, and the metadata only identifier characters.
   */
  lemma TryParseAccepts(s: string)
    ensures TryParse(Some(s)).Some? <==>
              && 2 <= |Split(SemanticVersions.CoreText(s), '.')| <= 4
              && (forall k :: 0 <= k < |Split(SemanticVersions.CoreText(s), '.')| ==> IsDigits(Split(SemanticVersions.CoreText(s), '.')[k]))
              && (SemanticVersions.LabelText(s).Some? ==>
                    forall c :: c in SemanticVersions.LabelText(s).value ==> SemanticVersions.IsLabelTextChar(c))
              && (SemanticVersions.MetadataText(s).Some? ==>
                    forall c :: c in SemanticVersions.MetadataText(s).value ==> SemanticVersions.IsIdentifierChar(c))
  {
    if s == "" || SemanticVersions.HeadText(s) == "" {
      assert SemanticVersions.CoreText(s) == "";
      assert Fields("", '.') == [""];
      if s != "" {
        SemanticVersions.DissectByPosition(s);
      }
    } else {
      SemanticVersions.DissectByPosition(s);
      PiecesOfAccepts(SemanticVersions.Dissect(s).value);
      if SemanticVersions.LabelText(s).Some? {
        SemanticVersions.ValidLabelText(SemanticVersions.LabelText(s).value);
      }
      if SemanticVersions.MetadataText(s).Some? {
        SemanticVersions.MetadataChars(SemanticVersions.MetadataText(s).value);
      }
    }
  }

  /**
   * What an accepted string becomes: two to four core numbers (0 for a
   * missing patch or revision), the label text split on '.' (nil without a
   * '-'), everything after the first '+' (nil without a '+'), and the text
   * itself as the original version.
   */
  lemma TryParseFields(s: string)
    requires TryParse(Some(s)).Some?
    ensures var v := TryParse(Some(s)).value;
            var parts := Split(SemanticVersions.CoreText(s), '.');
            && 2 <= |parts| <= 4 && (forall k :: 0 <= k < |parts| ==> IsDigits(parts[k]))
            && v.major == DigitsValue(parts[0])
            && v.minor == DigitsValue(parts[1])
            && v.patch == (if |parts| >= 3 then DigitsValue(parts[2]) else 0)
            && v.flavor == NuGet(if |parts| == 4 then DigitsValue(parts[3]) else 0, Some(s))
            && v.releaseLabels == (if SemanticVersions.LabelText(s).Some? then Some(Split(SemanticVersions.LabelText(s).value, '.')) else None)
            && v.metadata == SemanticVersions.MetadataText(s)
  {
    SemanticVersions.DissectByPosition(s);
    PiecesOfAccepts(SemanticVersions.Dissect(s).value);
  }

  /**
   * Every string the strict parser accepts the NuGet parser accepts too, as
   * the same version with revision 0 and the text remembered; the two
   * compare equal.
   */
  lemma StrictParseIsNuGetParse(s: string)
    requires SemanticVersions.TryParse(Some(s)).Some?
    ensures TryParse(Some(s)) == Some(SemanticVersions.TryParse(Some(s)).value.(flavor := NuGet(0, Some(s))))
    ensures CompareVersions(TryParse(Some(s)).value, SemanticVersions.TryParse(Some(s)).value) == 0
  {
    var sections := SemanticVersions.Dissect(s).value;
    SemanticVersions.StrictFromSectionsAccepts(sections);
    PiecesOfAccepts(sections);
    var v := TryParse(Some(s)).value;
    var w := SemanticVersions.TryParse(Some(s)).value;
    assert v == w.(flavor := NuGet(0, Some(s)));
    CompareLabelsReflexive(LabelsOrEmpty(w));
    CaseCmpZero(MetadataOrEmpty(w), MetadataOrEmpty(w));
  }

  /**
   * A dotted core of digit strings followed by a canonical label and
   * metadata suffix parses exactly when the core has two to four parts; a
   * missing patch or revision is 0, and the text itself is kept.
   */
  lemma ParseOfParts(parts: seq<string>, v: Version)
    requires |parts| > 0 && forall k :: 0 <= k < |parts| ==> IsDigits(parts[k])
    requires SemanticVersions.CanonicalSuffix(v)
    ensures var text := Join(parts, '.') + SemanticVersions.LabelAndMetadataSuffix(v);
            TryParse(Some(text)) ==
              if 2 <= |parts| <= 4 then
                Some(Version(DigitsValue(parts[0]), DigitsValue(parts[1]),
                             if |parts| >= 3 then DigitsValue(parts[2]) else 0,
                             v.releaseLabels, v.metadata,
                             NuGet(if |parts| == 4 then DigitsValue(parts[3]) else 0, Some(text))))
              else None
  {
    SemanticVersions.DissectOfText(parts, v);
    PiecesOfAccepts(SemanticVersions.Sections(parts, v.releaseLabels, v.metadata));
  }

  /**
   * A bare dotted core of digit strings parses exactly when it has two to
   * four parts; a missing patch or revision is 0.
   */
  lemma PlainCore(parts: seq<string>)
    requires |parts| > 0 && forall k :: 0 <= k < |parts| ==> IsDigits(parts[k])
    ensures TryParse(Some(Join(parts, '.'))) ==
              if 2 <= |parts| <= 4 then
                Some(Version(DigitsValue(parts[0]), DigitsValue(parts[1]),
                             if |parts| >= 3 then DigitsValue(parts[2]) else 0,
                             None, None,
                             NuGet(if |parts| == 4 then DigitsValue(parts[3]) else 0, Some(Join(parts, '.')))))
              else None
  {
    var plain := Version(0, 0, 0, None, None, Strict);
    assert Join(parts, '.') + SemanticVersions.LabelAndMetadataSuffix(plain) == Join(parts, '.');
    ParseOfParts(parts, plain);
  }

  // ---------------------------------------------------------------------------
  // Round trips between to_s and try_parse
  // ---------------------------------------------------------------------------

  /**
   * A NuGet version whose built text `try_parse` reads back: numbers and
   * revision of at least 0, a canonical suffix, no original text.
   */
  predicate Canonical(v: Version)
  {
    && v.flavor.NuGet? && v.flavor.originalVersion.None?
    && v.major >= 0 && v.minor >= 0 && v.patch >= 0 && v.flavor.revision >= 0
    && SemanticVersions.CanonicalSuffix(v)
  }

  /** The digit strings of the built text: three, and a fourth for a revision other than 0. */
  function CoreParts(v: Version): seq<string>
    requires Canonical(v)
  {
    [NatToS(v.major), NatToS(v.minor), NatToS(v.patch)]
    + (if v.flavor.revision != 0 then [NatToS(v.flavor.revision)] else [])
  }

  lemma JoinFour(a: string, b: string, c: string, d: string, sep: char)
    ensures Join([a, b, c, d], sep) == a + [sep] + b + [sep] + c + [sep] + d
  {
    assert [a, b, c, d][1..] == [b, c, d];
    SemanticVersions.JoinThree(b, c, d, sep);
    assert Join([a, b, c, d], sep) == a + [sep] + (b + [sep] + c + [sep] + d);
  }

  /** The built text of a canonical version is its digit strings joined with '.', then its suffix. */
  lemma BuiltTextParts(v: Version)
    requires Canonical(v)
    ensures BuiltText(v) == Join(CoreParts(v), '.') + SemanticVersions.LabelAndMetadataSuffix(v)
  {
    var a, b, c := NatToS(v.major), NatToS(v.minor), NatToS(v.patch);
    assert IntToS(v.major) == a && IntToS(v.minor) == b && IntToS(v.patch) == c;
    if v.flavor.revision != 0 {
      var d := NatToS(v.flavor.revision);
      assert IntToS(v.flavor.revision) == d;
      assert CoreParts(v) == [a, b, c, d];
      JoinFour(a, b, c, d, '.');
    } else {
      assert CoreParts(v) == [a, b, c];
      SemanticVersions.JoinThree(a, b, c, '.');
    }
  }

  /**
   * `try_parse(v.to_s)` rebuilds every canonical NuGet version, now
   * remembering the text it was parsed from.
   */
  lemma ParseOfToS(v: Version)
    requires Canonical(v)
    ensures TryParse(Some(ToS(v))) == Some(v.(flavor := NuGet(v.flavor.revision, Some(ToS(v)))))
  {
    var parts := CoreParts(v);
    BuiltTextParts(v);
    SemanticVersions.DissectOfText(parts, v);
    var sections := SemanticVersions.Dissect(ToS(v)).value;
    assert sections.parts == parts;
    PiecesOfAccepts(sections);
    DigitsValueNatToS(v.major);
    DigitsValueNatToS(v.minor);
    DigitsValueNatToS(v.patch);
    DigitsValueNatToS(v.flavor.revision);
    var p := PiecesOf(sections).value;
    assert p == Pieces(v.major, v.minor, v.patch, v.flavor.revision, v.releaseLabels, v.metadata);
  }

  /** Without a revision or an original text, `to_s` prints what the strict `to_s` prints. */
  lemma ToSWithoutRevision(v: Version)
    requires v.flavor == NuGet(0, None)
    ensures ToS(v) == SemanticVersions.ToS(v)
  {
  }

  /**
   * The inherited setters change a number, the labels or the metadata but
   * not the original text, so `to_s` keeps printing the parsed text.
   */
  lemma SettersKeepOriginalText(v: Version, major: int, labels: Option<seq<string>>)
    requires v.flavor.NuGet? && v.flavor.originalVersion.Some? && v.flavor.originalVersion.value != ""
    ensures ToS(v.(major := major)) == ToS(v)
    ensures ToS(v.(releaseLabels := labels)) == ToS(v)
  {
  }

  /** A NuGet copy compares equal to the version it copies, whichever kind that is. */
  lemma CopyOfComparesEqual(v: Version)
    requires SemanticVersions.Valid(v)
    ensures CopyOf(v).Success?
    ensures CompareVersions(CopyOf(v).value, v) == 0
  {
    CompareLabelsReflexive(LabelsOrEmpty(v));
    CaseCmpZero(MetadataOrEmpty(v), MetadataOrEmpty(v));
  }

  /**
   * A NuGet copy carries no original text, so it prints the text built
   * from its fields rather than the text the copied version was parsed from.
   */
  lemma CopyPrintsBuiltText(v: Version)
    requires SemanticVersions.Valid(v)
    ensures CopyOf(v).Success?
    ensures CopyOf(v).value.flavor.originalVersion == None
    ensures ToS(CopyOf(v).value) == BuiltText(v)
  {
  }

  /** A strict copy of a NuGet version drops the revision, so it sorts below a version with one. */
  lemma StrictCopyDropsRevision(v: Version)
    requires SemanticVersions.Valid(v) && v.flavor.NuGet? && v.flavor.revision > 0
    ensures SemanticVersions.CopyOf(v).Success?
    ensures CompareVersions(v, SemanticVersions.CopyOf(v).value) == 1
  {
  }

  // ---------------------------------------------------------------------------
  // NuGetVersion objects
  // ---------------------------------------------------------------------------

  /**
   * A `NuGetVersion` object.  The strict part lives in `base`, whose setters
   * are the inherited ones; the revision and the original text are the
   * object's own fields.
   */
  class NuGetVersion {
    const base: SemanticVersions.SemanticVersion
    var revision: int
    var originalVersion: Option<string>

    /** The object's fields as a value. */
    function Value(): Version
      reads this, base
    {
      base.Value().(flavor := NuGet(revision, originalVersion))
    }

    /** `NuGetVersion.new(...)`; the raising case is `New`'s failure. */
    constructor (major: int, minor: int, patch: int, revision: int := 0,
                 labels: Option<SemanticVersions.LabelsInput> := None, metadata: Option<string> := None)
      requires New(major, minor, patch, revision, labels, metadata).Success?
      ensures fresh(base)
      ensures SemanticVersions.Valid(Value())
      ensures Value() == New(major, minor, patch, revision, labels, metadata).value
    {
      base := new SemanticVersions.SemanticVersion(major, minor, patch, labels, metadata);
      this.revision := revision;
      originalVersion := None;
    }

    /** `revision = n`: the numbers, labels, metadata and original text stay. */
    method SetRevision(n: int)
      modifies this
      ensures Value() == old(Value()).(flavor := NuGet(n, old(originalVersion)))
    {
      revision := n;
    }

    /** `original_version = s` */
    method SetOriginalVersion(s: Option<string>)
      modifies this
      ensures Value() == old(Value()).(flavor := NuGet(old(revision), s))
    {
      originalVersion := s;
    }

    /** The inherited `major = n`: the original text is kept. */
    method SetMajor(n: int)
      modifies base
      ensures Value() == old(Value()).(major := n)
    {
      base.SetMajor(n);
    }

    /** The inherited `minor = n`: the original text is kept. */
    method SetMinor(n: int)
      modifies base
      ensures Value() == old(Value()).(minor := n)
    {
      base.SetMinor(n);
    }

    /** The inherited `patch = n`: the original text is kept. */
    method SetPatch(n: int)
      modifies base
      ensures Value() == old(Value()).(patch := n)
    {
      base.SetPatch(n);
    }

    /** The inherited `release_labels = x`; raises (`ok` false) on an invalid identifier. */
    method SetReleaseLabels(x: Option<SemanticVersions.LabelsInput>) returns (ok: bool)
      requires SemanticVersions.Valid(Value())
      modifies base
      ensures ok <==> x.None? || SemanticVersions.TryValidateIdentifiers(SemanticVersions.LabelsOf(x.value))
      ensures SemanticVersions.Valid(Value())
      ensures ok ==> Value() == old(Value()).(releaseLabels := if x.None? then None else Some(SemanticVersions.LabelsOf(x.value)))
      ensures !ok ==> Value() == old(Value())
    {
      ok := base.SetReleaseLabels(x);
    }

    /** The inherited `release = s`. */
    method SetRelease(s: Option<string>) returns (ok: bool)
      requires SemanticVersions.Valid(Value())
      modifies base
      ensures ok <==> s.None? || SemanticVersions.TryValidateIdentifiers(Split(s.value, '.'))
      ensures SemanticVersions.Valid(Value())
      ensures ok ==> Value() == old(Value()).(releaseLabels := if s.None? then None else Some(Split(s.value, '.')))
      ensures !ok ==> Value() == old(Value())
    {
      ok := base.SetRelease(s);
    }

    /** The inherited `metadata = m`. */
    method SetMetadata(m: Option<string>) returns (ok: bool)
      requires SemanticVersions.Valid(Value())
      modifies base
      ensures ok <==> m.None? || SemanticVersions.TryValidateIdentifier(m.value)
      ensures SemanticVersions.Valid(Value())
      ensures ok ==> Value() == old(Value()).(metadata := m)
      ensures !ok ==> Value() == old(Value())
    {
      ok := base.SetMetadata(m);
    }
  }

  /**
   * `NuGetVersion.try_parse(value)` as the object it returns: the pieces
   * are handed to `new`, then the original text is assigned to the new
   * object (null where `try_parse` gives nil).
   */
  method TryParseObject(value: Option<string>) returns (ver: NuGetVersion?)
    ensures ver == null <==> TryParse(value).None?
    ensures ver != null ==> fresh(ver) && fresh(ver.base) && ver.Value() == TryParse(value).value
  {
    var pieces := ParsePieces(value);
    if pieces.None? {
      return null;
    }
    var p := pieces.value;
    ver := new NuGetVersion(p.major, p.minor, p.patch, p.revision, SemanticVersions.LabelsArgument(p.labels), p.metadata);
    ver.SetOriginalVersion(value);
  }
}
