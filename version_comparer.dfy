/**
 * `VersionComparer.compare(a, b)`: the three-way ordering behind every
 * comparison operator. Major, minor and patch decide first; then the
 * revision, with a rule for a NuGet version against a strict one; then the
 * prerelease labels position by position; and build metadata breaks the
 * remaining ties.
 */
module VersionComparer {
  import opened Wrappers
  import opened RubyText
  import opened VersionModel

  /**
   * One prerelease identifier against another: two decimal identifiers by
   * value (a tie falls through to the text), a decimal one above any other,
   * and otherwise ASCII case-insensitive text order.
   */
  function CompareIdentifiers(x: string, y: string): (r: int)
    ensures -1 <= r <= 1
  {
    var xi := ParseInteger(x);
    var yi := ParseInteger(y);
    if xi.Some? && yi.Some? && Spaceship(xi.value, yi.value) != 0 then Spaceship(xi.value, yi.value)
    else if xi.Some? && yi.None? then 1
    else if xi.None? && yi.Some? then -1
    else CaseCmp(x, y)
  }

  /**
   * The loop over label positions: the first position where the identifiers
   * differ decides, and a list that runs out first is the greater one.
   */
  function CompareLabels(a: seq<string>, b: seq<string>): (r: int)
    ensures -1 <= r <= 1
  {
    if |a| == 0 && |b| == 0 then 0
    else if |a| == 0 then 1
    else if |b| == 0 then -1
    else
      var c := CompareIdentifiers(a[0], b[0]);
      if c != 0 then c else CompareLabels(a[1..], b[1..])
  }

  /**
   * The revision step: two NuGet versions compare revisions; in a mixed pair
   * only a NuGet revision above 0 decides; two strict versions have none.
   */
  function CompareRevisions(a: Flavor, b: Flavor): (r: int)
    ensures -1 <= r <= 1
    ensures a.NuGet? && b.NuGet? ==> (r < 0 <==> a.revision < b.revision) && (r == 0 <==> a.revision == b.revision)
    ensures a.NuGet? && b.Strict? ==> r >= 0 && (r == 0 <==> a.revision <= 0)
    ensures a.Strict? && b.NuGet? ==> r <= 0 && (r == 0 <==> b.revision <= 0)
    ensures a.Strict? && b.Strict? ==> r == 0
  {
    match (a, b)
    case (NuGet(ra, _), NuGet(rb, _)) => Spaceship(ra, rb)
    case (NuGet(ra, _), Strict) => if ra > 0 then 1 else 0
    case (Strict, NuGet(rb, _)) => if rb > 0 then -1 else 0
    case (Strict, Strict) => 0
  }

  /** `compare(a, b)` for two versions that are both present. */
  function CompareVersions(a: Version, b: Version): (r: int)
    ensures -1 <= r <= 1
    ensures a.major < b.major ==> r == -1
    ensures a.major == b.major && a.minor < b.minor ==> r == -1
    ensures a.major == b.major && a.minor == b.minor && a.patch < b.patch ==> r == -1
  {
    var major := Spaceship(a.major, b.major);
    if major != 0 then major
    else
      var minor := Spaceship(a.minor, b.minor);
      if minor != 0 then minor
      else
        var patch := Spaceship(a.patch, b.patch);
        if patch != 0 then patch
        else
          var revision := CompareRevisions(a.flavor, b.flavor);
          if revision != 0 then revision
          else
            var labels := CompareLabels(LabelsOrEmpty(a), LabelsOrEmpty(b));
            if labels != 0 then labels
            else CaseCmp(MetadataOrEmpty(a), MetadataOrEmpty(b))
  }

  /**
   * `VersionComparer.compare(a, b)`, with `None` for nil: a present version
   * is above nil, and two nils are equal.
   */
  function Compare(a: Option<Version>, b: Option<Version>): (r: int)
    ensures -1 <= r <= 1
    ensures a.Some? && b.None? ==> r == 1
    ensures a.None? && b.Some? ==> r == -1
    ensures a.None? && b.None? ==> r == 0
  {
    if a.None? && b.None? then 0
    else if b.None? then 1
    else if a.None? then -1
    else CompareVersions(a.value, b.value)
  }

  // ---------------------------------------------------------------------------
  // Antisymmetry and reflexivity
  // ---------------------------------------------------------------------------

  lemma CompareIdentifiersAntisymmetric(x: string, y: string)
    ensures CompareIdentifiers(x, y) == -CompareIdentifiers(y, x)
  {
    CaseCmpAntisymmetric(x, y);
  }

  lemma {:induction false} CompareLabelsAntisymmetric(a: seq<string>, b: seq<string>)
    ensures CompareLabels(a, b) == -CompareLabels(b, a)
  {
    if |a| > 0 && |b| > 0 {
      CompareIdentifiersAntisymmetric(a[0], b[0]);
      CompareLabelsAntisymmetric(a[1..], b[1..]);
    }
  }

  lemma CompareVersionsAntisymmetric(a: Version, b: Version)
    ensures CompareVersions(a, b) == -CompareVersions(b, a)
  {
    CompareLabelsAntisymmetric(LabelsOrEmpty(a), LabelsOrEmpty(b));
    CaseCmpAntisymmetric(MetadataOrEmpty(a), MetadataOrEmpty(b));
  }

  /** `compare(a, b) == -compare(b, a)`, nil included. */
  lemma CompareAntisymmetric(a: Option<Version>, b: Option<Version>)
    ensures Compare(a, b) == -Compare(b, a)
  {
    if a.Some? && b.Some? {
      CompareVersionsAntisymmetric(a.value, b.value);
    }
  }

  lemma {:induction false} CompareLabelsReflexive(a: seq<string>)
    ensures CompareLabels(a, a) == 0
  {
    if |a| > 0 {
      CaseCmpZero(a[0], a[0]);
      CompareLabelsReflexive(a[1..]);
    }
  }

  /** Every version is equal to itself (the source's `a.equal? b` shortcut agrees). */
  lemma CompareReflexive(a: Option<Version>)
    ensures Compare(a, a) == 0
  {
    if a.Some? {
      CompareLabelsReflexive(LabelsOrEmpty(a.value));
      CaseCmpZero(MetadataOrEmpty(a.value), MetadataOrEmpty(a.value));
    }
  }

  // ---------------------------------------------------------------------------
  // Transitivity
  // ---------------------------------------------------------------------------

  lemma CompareIdentifiersTransitive(x: string, y: string, z: string)
    ensures CompareIdentifiers(x, y) <= 0 && CompareIdentifiers(y, z) <= 0 ==> CompareIdentifiers(x, z) <= 0
  {
    CaseCmpTransitive(x, y, z);
  }

  lemma {:induction false} CompareLabelsTransitive(a: seq<string>, b: seq<string>, c: seq<string>)
    ensures CompareLabels(a, b) <= 0 && CompareLabels(b, c) <= 0 ==> CompareLabels(a, c) <= 0
  {
    if |a| > 0 && |b| > 0 && |c| > 0 {
      CompareIdentifiersTransitive(a[0], b[0], c[0]);
      CompareIdentifiersTransitive(b[0], c[0], a[0]);
      CompareIdentifiersTransitive(c[0], a[0], b[0]);
      CompareIdentifiersAntisymmetric(a[0], b[0]);
      CompareIdentifiersAntisymmetric(b[0], c[0]);
      CompareIdentifiersAntisymmetric(a[0], c[0]);
      CompareLabelsTransitive(a[1..], b[1..], c[1..]);
    }
  }

  /** With revisions of at least 0 the revision step compares effective revisions. */
  lemma CompareRevisionsByValue(a: Version, b: Version)
    requires RevisionNonNegative(a) && RevisionNonNegative(b)
    ensures CompareRevisions(a.flavor, b.flavor) == Spaceship(EffectiveRevision(a), EffectiveRevision(b))
  {
  }

  /**
   * `compare` is transitive, so the operators derived from it order versions
   * consistently, provided no revision is negative.
   */
  lemma CompareVersionsTransitive(a: Version, b: Version, c: Version)
    requires RevisionNonNegative(a) && RevisionNonNegative(b) && RevisionNonNegative(c)
    ensures CompareVersions(a, b) <= 0 && CompareVersions(b, c) <= 0 ==> CompareVersions(a, c) <= 0
  {
    CompareRevisionsByValue(a, b);
    CompareRevisionsByValue(b, c);
    CompareRevisionsByValue(a, c);
    var la, lb, lc := LabelsOrEmpty(a), LabelsOrEmpty(b), LabelsOrEmpty(c);
    CompareLabelsTransitive(la, lb, lc);
    CompareLabelsTransitive(lb, lc, la);
    CompareLabelsTransitive(lc, la, lb);
    CompareLabelsAntisymmetric(la, lb);
    CompareLabelsAntisymmetric(lb, lc);
    CompareLabelsAntisymmetric(la, lc);
    CaseCmpTransitive(MetadataOrEmpty(a), MetadataOrEmpty(b), MetadataOrEmpty(c));
  }

  /** Equality under `compare` is an equivalence: it is also transitive. */
  lemma CompareEqualTransitive(a: Version, b: Version, c: Version)
    requires RevisionNonNegative(a) && RevisionNonNegative(b) && RevisionNonNegative(c)
    requires CompareVersions(a, b) == 0 && CompareVersions(b, c) == 0
    ensures CompareVersions(a, c) == 0
  {
    CompareVersionsTransitive(a, b, c);
    CompareVersionsTransitive(c, b, a);
    CompareVersionsAntisymmetric(a, b);
    CompareVersionsAntisymmetric(b, c);
    CompareVersionsAntisymmetric(a, c);
  }

  /** A strictly smaller element stays strictly smaller along a chain. */
  lemma CompareStrictTransitive(a: Version, b: Version, c: Version)
    requires RevisionNonNegative(a) && RevisionNonNegative(b) && RevisionNonNegative(c)
    requires CompareVersions(a, b) == -1 && CompareVersions(b, c) <= 0
    ensures CompareVersions(a, c) == -1
  {
    CompareVersionsTransitive(b, c, a);
    CompareVersionsAntisymmetric(a, b);
    CompareVersionsAntisymmetric(a, c);
  }

  /**
   * Without the non-negativity assumption the order is not transitive: a
   * NuGet version with revision -1 equals a strict version, which equals a
   * NuGet version with revision 0, yet the first is below the third.
   */
  lemma NegativeRevisionBreaksTransitivity()
    ensures var a := Version(1, 2, 3, None, None, NuGet(-1, None));
            var b := Version(1, 2, 3, None, None, Strict);
            var c := Version(1, 2, 3, None, None, NuGet(0, None));
            CompareVersions(a, b) == 0 && CompareVersions(b, c) == 0 && CompareVersions(a, c) == -1
  {
  }

  // ---------------------------------------------------------------------------
  // Precedence rules
  // ---------------------------------------------------------------------------

  /** A label list that is a proper prefix of another sorts above it. */
  lemma {:induction false} ShorterPrefixIsGreater(p: seq<string>, q: seq<string>)
    requires |p| < |q| && q[..|p|] == p
    ensures CompareLabels(p, q) == 1 && CompareLabels(q, p) == -1
  {
    if |p| > 0 {
      CaseCmpZero(p[0], p[0]);
      assert q[1..][..|p| - 1] == p[1..];
      ShorterPrefixIsGreater(p[1..], q[1..]);
    }
  }

  /**
   * A release (no labels, or an empty label list) is above every prerelease
   * of the same numbers, whatever the metadata.
   */
  lemma ReleaseAbovePrerelease(v: Version, labels: seq<string>, release: Option<seq<string>>)
    requires |labels| > 0
    requires release == None || release == Some([])
    ensures CompareVersions(v.(releaseLabels := Some(labels)), v.(releaseLabels := release)) == -1
  {
  }

  /** Two decimal identifiers compare by value, so "2" is below "10". */
  lemma NumericIdentifiersByValue(m: int, n: int)
    ensures CompareIdentifiers(IntToS(m), IntToS(n)) == Spaceship(m, n)
  {
    ParseIntegerToS(m);
    ParseIntegerToS(n);
    if m == n {
      CaseCmpZero(IntToS(m), IntToS(n));
    }
  }

  /** A decimal identifier is above one that is not. */
  lemma NumericAboveAlphanumeric(x: string, y: string)
    requires ParseInteger(x).Some? && ParseInteger(y).None?
    ensures CompareIdentifiers(x, y) == 1 && CompareIdentifiers(y, x) == -1
  {
  }

  /**
   * When major, minor and patch agree, a NuGet version with revision above 0
   * is above any strict version, and one with revision 0 compares exactly as
   * the strict version with the same fields would.
   */
  lemma MixedRevisions(v: Version, w: Version, r: int, original: Option<string>)
    requires w.flavor == Strict
    requires v.major == w.major && v.minor == w.minor && v.patch == w.patch
    ensures r > 0 ==> CompareVersions(v.(flavor := NuGet(r, original)), w) == 1
    ensures r == 0 ==> CompareVersions(v.(flavor := NuGet(r, original)), w) == CompareVersions(v.(flavor := Strict), w)
  {
  }

  /** Revision 0 behaves as "no revision" against every version with a revision of at least 0. */
  lemma RevisionZeroIsStrict(v: Version, w: Version, original: Option<string>)
    requires RevisionNonNegative(w)
    ensures CompareVersions(v.(flavor := NuGet(0, original)), w) == CompareVersions(v.(flavor := Strict), w)
  {
  }

  /**
   * Metadata is the last tiebreak: versions that differ only in metadata
   * compare as the metadata strings do, case-insensitively, absent counting as "".
   */
  lemma MetadataBreaksTies(v: Version, m: Option<string>, n: Option<string>)
    ensures CompareVersions(v.(metadata := m), v.(metadata := n))
            == CaseCmp(if m.Some? then m.value else "", if n.Some? then n.value else "")
  {
    CompareLabelsReflexive(LabelsOrEmpty(v));
  }

  // ---------------------------------------------------------------------------
  // Sorting with the comparer
  // ---------------------------------------------------------------------------

  /**
   * A list whose neighbours are in ascending order is in ascending order
   * throughout, as long as no revision is negative.
   */
  lemma {:induction false} AdjacentOrderExtends(l: seq<Version>)
    requires forall i :: 0 <= i < |l| ==> RevisionNonNegative(l[i])
    requires forall i :: 0 <= i < |l| - 1 ==> CompareVersions(l[i], l[i + 1]) == -1
    ensures forall i, j :: 0 <= i < j < |l| ==> CompareVersions(l[i], l[j]) == -1
  {
    if |l| > 1 {
      var rest := l[1..];
      forall i | 0 <= i < |rest| - 1
        ensures CompareVersions(rest[i], rest[i + 1]) == -1
      {
        assert rest[i] == l[i + 1] && rest[i + 1] == l[i + 2];
      }
      AdjacentOrderExtends(rest);
      forall i, j | 0 <= i < j < |l|
        ensures CompareVersions(l[i], l[j]) == -1
      {
        if i == 0 && j > 1 {
          assert rest[0] == l[1] && rest[j - 1] == l[j];
          CompareStrictTransitive(l[0], l[1], l[j]);
        } else if i > 0 {
          assert rest[i - 1] == l[i] && rest[j - 1] == l[j];
        }
      }
    }
  }

  /**
   * Groups of equal versions, the groups in ascending order: any member of
   * group x compares with any member of group y as x compares with y.
   */
  lemma GroupedOrder(groups: seq<seq<Version>>)
    requires forall x :: 0 <= x < |groups| ==> |groups[x]| > 0
    requires forall x, z :: 0 <= x < |groups| && 0 <= z < |groups[x]| ==> RevisionNonNegative(groups[x][z])
    requires forall x, z :: 0 <= x < |groups| && 0 <= z < |groups[x]| ==> CompareVersions(groups[x][z], groups[x][0]) == 0
    requires forall x :: 0 <= x < |groups| - 1 ==> CompareVersions(groups[x][0], groups[x + 1][0]) == -1
    ensures forall x, y, z, w :: 0 <= x < |groups| && 0 <= y < |groups| && 0 <= z < |groups[x]| && 0 <= w < |groups[y]| ==>
              CompareVersions(groups[x][z], groups[y][w]) == Spaceship(x, y)
  {
    var heads := seq(|groups|, x requires 0 <= x < |groups| => groups[x][0]);
    AdjacentOrderExtends(heads);
    forall x, y, z, w | 0 <= x < |groups| && 0 <= y < |groups| && 0 <= z < |groups[x]| && 0 <= w < |groups[y]|
      ensures CompareVersions(groups[x][z], groups[y][w]) == Spaceship(x, y)
    {
      var a, b := groups[x][z], groups[y][w];
      CompareVersionsAntisymmetric(b, groups[y][0]);
      if x == y {
        CompareEqualTransitive(a, groups[x][0], b);
      } else if x < y {
        assert heads[x] == groups[x][0] && heads[y] == groups[y][0];
        CompareStrictTransitive(groups[x][0], groups[y][0], b);
        CompareEqualOrLess(a, groups[x][0], b);
      } else {
        assert heads[x] == groups[x][0] && heads[y] == groups[y][0];
        CompareVersionsAntisymmetric(a, groups[x][0]);
        CompareStrictTransitive(groups[y][0], groups[x][0], a);
        CompareEqualOrLess(b, groups[y][0], a);
        CompareVersionsAntisymmetric(a, b);
      }
    }
  }

  /** Equal, then strictly below: strictly below. */
  lemma CompareEqualOrLess(a: Version, b: Version, c: Version)
    requires RevisionNonNegative(a) && RevisionNonNegative(b) && RevisionNonNegative(c)
    requires CompareVersions(a, b) == 0 && CompareVersions(b, c) == -1
    ensures CompareVersions(a, c) == -1
  {
    CompareVersionsTransitive(a, b, c);
    CompareVersionsAntisymmetric(a, c);
    if CompareVersions(a, c) == 0 {
      CompareVersionsAntisymmetric(a, b);
      CompareEqualTransitive(c, a, b);
      CompareVersionsAntisymmetric(b, c);
    }
  }
}
