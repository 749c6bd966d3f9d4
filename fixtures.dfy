/**
 * The orderings and parse results the library's own test suite expects,
 * stated over the model.
 */
module VersionFixtures {
  import opened Wrappers
  import opened RubyText
  import opened VersionModel
  import opened VersionComparer
  import SemanticVersions
  import NuGetVersions

  /**
   * The strict versions "0.2.3", "1.1.3", "1.2.2", "1.2.3-babel",
   * "1.2.3-label.5", "1.2.3-label.6", "1.2.3-label.6+metadata",
   * "1.2.3-label", "1.2.3" and "1.2.4-label", in the order the tests expect.
   * The values are transcribed from those texts by hand; no lemma here
   * relates them to `SemanticVersions.TryParse`.
   */
  function InOrder(): seq<Version>
  {
    [ Version(0, 2, 3, None, None, Strict),
      Version(1, 1, 3, None, None, Strict),
      Version(1, 2, 2, None, None, Strict),
      Version(1, 2, 3, Some(["babel"]), None, Strict),
      Version(1, 2, 3, Some(["label", "5"]), None, Strict),
      Version(1, 2, 3, Some(["label", "6"]), None, Strict),
      Version(1, 2, 3, Some(["label", "6"]), Some("metadata"), Strict),
      Version(1, 2, 3, Some(["label"]), None, Strict),
      Version(1, 2, 3, None, None, Strict),
      Version(1, 2, 4, Some(["label"]), None, Strict) ]
  }

  /** Every earlier version of the list sorts strictly below every later one. */
  lemma InOrderIsAscending()
    ensures forall i, j :: 0 <= i < j < |InOrder()| ==> CompareVersions(InOrder()[i], InOrder()[j]) == -1
  {
    AdjacentOrderExtends(InOrder());
  }

  /**
   * The comparer's test table: each group holds the NuGet version of a text
   * and, where the text has a strict twin, the strict version as well; the
   * groups ascend.  The values are transcribed from the texts by hand (the
   * NuGet ones carry the text as their original version); no lemma here
   * relates them to the parsers.
   */
  function ComparerGroups(): seq<seq<Version>>
  {
    [
      [Version(0, 0, 0, None, None, NuGet(0, Some("0.0.0.0"))), Version(0, 0, 0, None, None, Strict)],
      [Version(0, 0, 0, None, None, NuGet(1, Some("0.0.0.1")))],
      [Version(0, 0, 1, None, None, NuGet(0, Some("0.0.1.0"))), Version(0, 0, 1, None, None, Strict)],
      [Version(0, 0, 2, Some(["label", "1"]), None, NuGet(0, Some("0.0.2.0-label.1"))), Version(0, 0, 2, Some(["label", "1"]), None, Strict)],
      [Version(0, 0, 2, Some(["label"]), None, NuGet(0, Some("0.0.2.0-label"))), Version(0, 0, 2, Some(["label"]), None, Strict)],
      [Version(0, 0, 2, None, None, NuGet(0, Some("0.0.2.0"))), Version(0, 0, 2, None, None, Strict)],
      [Version(0, 0, 2, None, Some("metadata"), NuGet(0, Some("0.0.2.0+metadata"))), Version(0, 0, 2, None, Some("metadata"), Strict)],
      [Version(0, 0, 2, None, Some("metadata"), NuGet(1, Some("0.0.2.1+metadata")))],
      [Version(0, 0, 2, None, None, NuGet(2, Some("0.0.2.2")))],
      [Version(0, 0, 2, Some(["label", "2"]), None, NuGet(3, Some("0.0.2.3-label.2")))],
      [Version(0, 0, 2, Some(["label", "2", "3"]), None, NuGet(4, Some("0.0.2.4-label.2.3")))],
      [Version(0, 0, 2, Some(["label", "2", "3"]), None, NuGet(5, Some("0.0.2.5-label.2.3")))],
      [Version(0, 1, 0, Some(["label"]), None, NuGet(0, Some("0.1.0-label"))), Version(0, 1, 0, Some(["label"]), None, Strict)],
      [Version(0, 1, 1, Some(["babel"]), None, NuGet(0, Some("0.1.1-babel"))), Version(0, 1, 1, Some(["babel"]), None, Strict)],
      [Version(0, 1, 1, Some(["label"]), None, NuGet(0, Some("0.1.1-label"))), Version(0, 1, 1, Some(["label"]), None, Strict)],
      [Version(0, 1, 1, None, None, NuGet(0, Some("0.1.1"))), Version(0, 1, 1, None, None, Strict)],
      [Version(0, 2, 0, None, None, NuGet(0, Some("0.2.0"))), Version(0, 2, 0, None, None, Strict)],
      [Version(0, 2, 0, None, None, NuGet(1, Some("0.2.0.1")))],
      [Version(0, 3, 0, None, None, NuGet(0, Some("0.3.0"))), Version(0, 3, 0, None, None, Strict)],
      [Version(0, 3, 0, None, Some("metadata"), NuGet(0, Some("0.3.0+metadata"))), Version(0, 3, 0, None, Some("metadata"), Strict)],
      [Version(1, 0, 0, None, None, NuGet(0, Some("1.0.0"))), Version(1, 0, 0, None, None, Strict)],
      [Version(1, 0, 0, Some(["label"]), None, NuGet(1, Some("1.0.0.1-label")))],
      [Version(1, 0, 0, None, None, NuGet(1, Some("1.0.0.1")))],
      [Version(1, 0, 0, Some(["label"]), None, NuGet(2, Some("1.0.0.2-label")))],
      [Version(1, 0, 1, None, None, NuGet(0, Some("1.0.1"))), Version(1, 0, 1, None, None, Strict)],
      [Version(1, 1, 0, None, None, NuGet(0, Some("1.1.0"))), Version(1, 1, 0, None, None, Strict)],
      [Version(1, 1, 1, None, None, NuGet(0, Some("1.1.1"))), Version(1, 1, 1, None, None, Strict)]
    ]
  }

  /**
   * The NuGet versions "0.2.3", "0.2.3.4", "1.1.3.4", "1.2.2.4",
   * "1.2.3.4-babel", "1.2.3.4-label.5", "1.2.3.4-label.6",
   * "1.2.3.4-label.6+metadata", "1.2.3.4-label", "1.2.3.4" and
   * "1.2.3.5-label", in the order the tests expect, transcribed by hand
   * with each text as the original version.
   */
  function NuGetInOrder(): seq<Version>
  {
    [ Version(0, 2, 3, None, None, NuGet(0, Some("0.2.3"))),
      Version(0, 2, 3, None, None, NuGet(4, Some("0.2.3.4"))),
      Version(1, 1, 3, None, None, NuGet(4, Some("1.1.3.4"))),
      Version(1, 2, 2, None, None, NuGet(4, Some("1.2.2.4"))),
      Version(1, 2, 3, Some(["babel"]), None, NuGet(4, Some("1.2.3.4-babel"))),
      Version(1, 2, 3, Some(["label", "5"]), None, NuGet(4, Some("1.2.3.4-label.5"))),
      Version(1, 2, 3, Some(["label", "6"]), None, NuGet(4, Some("1.2.3.4-label.6"))),
      Version(1, 2, 3, Some(["label", "6"]), Some("metadata"), NuGet(4, Some("1.2.3.4-label.6+metadata"))),
      Version(1, 2, 3, Some(["label"]), None, NuGet(4, Some("1.2.3.4-label"))),
      Version(1, 2, 3, None, None, NuGet(4, Some("1.2.3.4"))),
      Version(1, 2, 3, Some(["label"]), None, NuGet(5, Some("1.2.3.5-label"))) ]
  }

  /** Every earlier NuGet version of the list sorts strictly below every later one. */
  lemma NuGetInOrderIsAscending()
    ensures forall i, j :: 0 <= i < j < |NuGetInOrder()| ==> CompareVersions(NuGetInOrder()[i], NuGetInOrder()[j]) == -1
  {
    NuGetInOrderAdjacent();
    AdjacentOrderExtends(NuGetInOrder());
  }

  /** Each NuGet version of the list sorts strictly below the next one. */
  lemma NuGetInOrderAdjacent()
    ensures forall i :: 0 <= i < |NuGetInOrder()| - 1 ==> CompareVersions(NuGetInOrder()[i], NuGetInOrder()[i + 1]) == -1
  {
    NuGetInOrderAdjacentLow();
    NuGetInOrderAdjacentHigh();
  }

  /** The first five steps of the NuGet list ascend: they differ in a number or the revision. */
  lemma NuGetInOrderAdjacentLow()
    ensures forall i :: 0 <= i < 5 ==> CompareVersions(NuGetInOrder()[i], NuGetInOrder()[i + 1]) == -1
  {
    var l := NuGetInOrder();
    forall i | 0 <= i < 5
      ensures CompareVersions(l[i], l[i + 1]) == -1
    {
      assert i == 0 || i == 1 || i == 2 || i == 3 || i == 4;
    }
  }

  /** The last five steps of the NuGet list ascend: they differ in the labels, the metadata or the revision. */
  lemma NuGetInOrderAdjacentHigh()
    ensures forall i :: 5 <= i < 10 ==> CompareVersions(NuGetInOrder()[i], NuGetInOrder()[i + 1]) == -1
  {
    var l := NuGetInOrder();
    forall i | 5 <= i < 10
      ensures CompareVersions(l[i], l[i + 1]) == -1
    {
      assert i == 5 || i == 6 || i == 7 || i == 8 || i == 9;
    }
  }

  /**
   * Any member of group x compares with any member of group y as x
   * compares with y: equal within a group, ordered across groups.
   */
  lemma ComparerGroupsOrdered()
    ensures forall x, y, z, w ::
              0 <= x < |ComparerGroups()| && 0 <= y < |ComparerGroups()|
              && 0 <= z < |ComparerGroups()[x]| && 0 <= w < |ComparerGroups()[y]| ==>
              CompareVersions(ComparerGroups()[x][z], ComparerGroups()[y][w]) == Spaceship(x, y)
  {
    GroupShapes();
    GroupsEqualWithin();
    GroupHeadsAscend();
    GroupedOrder(ComparerGroups());
  }

  /**
   * Each group is a NuGet version with a revision of at least 0, and
   * possibly its strict twin: the same fields, revision 0 and no original text.
   */
  lemma GroupShapes()
    ensures forall x :: 0 <= x < |ComparerGroups()| ==>
              var g := ComparerGroups()[x];
              && 1 <= |g| <= 2 && g[0].flavor.NuGet? && g[0].flavor.revision >= 0
              && (|g| == 2 ==> g[0].flavor.revision == 0 && g[1] == g[0].(flavor := Strict))
  {
  }

  /** The members of a group compare equal to its first member. */
  lemma GroupsEqualWithin()
    ensures forall x, z :: 0 <= x < |ComparerGroups()| && 0 <= z < |ComparerGroups()[x]| ==>
              CompareVersions(ComparerGroups()[x][z], ComparerGroups()[x][0]) == 0
  {
    GroupShapes();
    var groups := ComparerGroups();
    forall x, z | 0 <= x < |groups| && 0 <= z < |groups[x]|
      ensures CompareVersions(groups[x][z], groups[x][0]) == 0
    {
      var head := groups[x][0];
      CompareLabelsReflexive(LabelsOrEmpty(head));
      CaseCmpZero(MetadataOrEmpty(head), MetadataOrEmpty(head));
    }
  }

  /** The first members of consecutive groups ascend. */
  lemma GroupHeadsAscend()
    ensures forall x :: 0 <= x < |ComparerGroups()| - 1 ==> CompareVersions(ComparerGroups()[x][0], ComparerGroups()[x + 1][0]) == -1
  {
  }

  /**
   * Two of the texts the tests parse successfully, each with its numbers,
   * labels and metadata.  The text is a parameter fixed by the requires,
   * so that the proof goes through `ParseOfToS` instead of evaluating the
   * parser on a literal.
   */
  lemma ParsesPlainVersion(s: string)
    requires s == "1.2.3"
    ensures SemanticVersions.TryParse(Some(s)) == Some(Version(1, 2, 3, None, None, Strict))
  {
    var v := Version(1, 2, 3, None, None, Strict);
    SemanticVersions.CanonicalText(v);
    assert SemanticVersions.ToS(v) == s;
    SemanticVersions.ParseOfToS(v);
  }

  lemma ParsesPrerelease(s: string)
    requires s == "4.5.6-label.7"
    ensures SemanticVersions.TryParse(Some(s)) == Some(Version(4, 5, 6, Some(["label", "7"]), None, Strict))
  {
    var v := Version(4, 5, 6, Some(["label", "7"]), None, Strict);
    SemanticVersions.CanonicalText(v);
    assert SemanticVersions.ToS(v) == s;
    SemanticVersions.ParseOfToS(v);
  }

  /** Texts without a number: nil. */
  lemma StrictRejectsNonNumbers()
    ensures SemanticVersions.TryParse(None) == None
    ensures SemanticVersions.TryParse(Some("")) == None
    ensures SemanticVersions.TryParse(Some("*")) == None
    ensures SemanticVersions.TryParse(Some("x")) == None
  {
  }

  /** Fewer than three parts: nil. */
  lemma StrictRejectsShortCores(one: string, two: string)
    requires one == "1" && two == "1.2"
    ensures SemanticVersions.TryParse(Some(one)) == None
    ensures SemanticVersions.TryParse(Some(two)) == None
  {
    var plain := Version(0, 0, 0, None, None, Strict);
    SemanticVersions.DissectOfText(["1"], plain);
    SemanticVersions.DissectOfText(["1", "2"], plain);
    assert Join(["1"], '.') + SemanticVersions.LabelAndMetadataSuffix(plain) == one;
    assert Join(["1", "2"], '.') + SemanticVersions.LabelAndMetadataSuffix(plain) == two;
  }

  /** The strict parser turns down a fourth part. */
  lemma StrictRejectsFourParts(s: string)
    requires s == "1.2.3.4"
    ensures SemanticVersions.TryParse(Some(s)) == None
  {
    var plain := Version(0, 0, 0, None, None, Strict);
    SemanticVersions.DissectOfText(["1", "2", "3", "4"], plain);
    assert Join(["1", "2", "3", "4"], '.') + SemanticVersions.LabelAndMetadataSuffix(plain) == s;
  }

  /** A label or metadata section with nothing before it: nil. */
  lemma StrictRejectsEmptyCores()
    ensures SemanticVersions.TryParse(Some("-test.1")) == None
    ensures SemanticVersions.TryParse(Some("+build.2")) == None
  {
  }

  /** The NuGet parser takes two parts, filling patch and revision with 0. */
  lemma NuGetTwoParts(s: string)
    requires s == "1.2"
    ensures NuGetVersions.TryParse(Some(s)) == Some(Version(1, 2, 0, None, None, NuGet(0, Some(s))))
  {
    assert Join(["1", "2"], '.') == s;
    NuGetVersions.PlainCore(["1", "2"]);
  }

  /** The NuGet parser turns down a single part. */
  lemma NuGetRejectsOnePart(s: string)
    requires s == "1"
    ensures NuGetVersions.TryParse(Some(s)) == None
  {
    assert Join(["1"], '.') == s;
    NuGetVersions.PlainCore(["1"]);
  }

  /** The NuGet parser turns down five parts. */
  lemma NuGetRejectsFiveParts(s: string)
    requires s == "1.2.3.4.5"
    ensures NuGetVersions.TryParse(Some(s)) == None
  {
    assert Join(["1", "2", "3", "4", "5"], '.') == s;
    NuGetVersions.PlainCore(["1", "2", "3", "4", "5"]);
  }

  /** The labels "label" and "9" are valid identifiers. */
  lemma LabelNineValid()
    ensures SemanticVersions.TryValidateIdentifiers(["label", "9"])
  {
    SemanticVersions.ValidIdentifierChars("label");
    SemanticVersions.ValidIdentifierChars("9");
  }

  /** Any version labelled "label" and "9" with no metadata prints the suffix "-label.9". */
  lemma LabelNineSuffix(v: Version)
    requires v.releaseLabels == Some(["label", "9"]) && v.metadata == None
    ensures SemanticVersions.CanonicalSuffix(v)
    ensures SemanticVersions.LabelAndMetadataSuffix(v) == "-label.9"
  {
    LabelNineValid();
    SemanticVersions.CanonicalText(v);
    assert Join(["label", "9"], '.') == "label.9";
  }

  /** The text "5.6.7.0-label.9" is the core "5.6.7.0" followed by "-label.9". */
  lemma ZeroRevisionText(s: string)
    requires s == "5.6.7.0-label.9"
    ensures Join(["5", "6", "7", "0"], '.') + "-label.9" == s
  {
    assert Join(["5", "6", "7", "0"], '.') == "5.6.7.0";
  }

  /** The decimal values of the digit strings "5", "6", "7" and "0". */
  lemma ZeroRevisionDigits()
    ensures DigitsValue("5") == 5 && DigitsValue("6") == 6 && DigitsValue("7") == 7 && DigitsValue("0") == 0
  {
  }

  /**
   * The NuGet parser reads "5.6.7.0-label.9" as 5.6.7 with an explicit
   * revision 0 and the labels "label" and "9", remembering the text.
   */
  lemma NuGetParsesZeroRevision(s: string)
    requires s == "5.6.7.0-label.9"
    ensures NuGetVersions.TryParse(Some(s)) == Some(Version(5, 6, 7, Some(["label", "9"]), None, NuGet(0, Some(s))))
  {
    var v := Version(0, 0, 0, Some(["label", "9"]), None, Strict);
    LabelNineSuffix(v);
    ZeroRevisionText(s);
    NuGetVersions.ParseOfParts(["5", "6", "7", "0"], v);
    ZeroRevisionDigits();
  }

  /** The numbers 5, 6 and 7 printed with dots between them. */
  lemma FiveSixSeven()
    ensures IntToS(5) + "." + IntToS(6) + "." + IntToS(7) == "5.6.7"
  {
    assert IntToS(5) == "5";
    assert IntToS(6) == "6";
    assert IntToS(7) == "7";
  }

  /**
   * A copy of 5.6.7 with revision 0 and the labels "label" and "9",
   * whatever its original text, prints "5.6.7-label.9".
   */
  lemma CopyOfZeroRevisionPrints(v: Version)
    requires v.major == 5 && v.minor == 6 && v.patch == 7 && v.flavor.NuGet? && v.flavor.revision == 0
    requires v.releaseLabels == Some(["label", "9"]) && v.metadata == None
    ensures NuGetVersions.CopyOf(v).Success?
    ensures NuGetVersions.ToS(NuGetVersions.CopyOf(v).value) == "5.6.7-label.9"
  {
    LabelNineSuffix(v);
    NuGetVersions.CopyPrintsBuiltText(v);
    FiveSixSeven();
  }

  /**
   * "5.6.7.0-label.9" parsed and then copied: the parse prints its text
   * back, but the copy has no original text and a zero revision, so it
   * prints "5.6.7-label.9" instead.
   */
  lemma CopyRewritesZeroRevision(s: string)
    requires s == "5.6.7.0-label.9"
    ensures NuGetVersions.TryParse(Some(s)).Some?
    ensures NuGetVersions.ToS(NuGetVersions.TryParse(Some(s)).value) == s
    ensures NuGetVersions.CopyOf(NuGetVersions.TryParse(Some(s)).value).Success?
    ensures NuGetVersions.ToS(NuGetVersions.CopyOf(NuGetVersions.TryParse(Some(s)).value).value) == "5.6.7-label.9"
  {
    NuGetParsesZeroRevision(s);
    CopyOfZeroRevisionPrints(NuGetVersions.TryParse(Some(s)).value);
  }
}
