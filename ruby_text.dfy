/**
 * The Ruby core operations on strings and integers that the version library
 * is built from: `String#split` (with and without a limit), `Array#join`,
 * `Kernel#Integer(s, 10)`, `Integer#to_s`, `Integer#<=>` and `String#casecmp`.
 */
module RubyText {
  import opened Wrappers

  /** Position of the first `c` in `s`, or `|s|` when `s` has none. */
  function IndexOf(s: string, c: char): (i: nat)
    ensures i <= |s|
    ensures forall k :: 0 <= k < i ==> s[k] != c
    ensures i < |s| ==> s[i] == c
  {
    if |s| == 0 then 0
    else if s[0] == c then 0
    else 1 + IndexOf(s[1..], c)
  }

  lemma IndexOfAbsent(s: string, c: char)
    requires c !in s
    ensures IndexOf(s, c) == |s|
  {
  }

  lemma IndexOfFirst(a: string, c: char, b: string)
    requires c !in a
    ensures IndexOf(a + [c] + b, c) == |a|
  {
    var s := a + [c] + b;
    assert s[|a|] == c;
    assert forall k :: 0 <= k < |a| ==> s[k] == a[k];
  }

  // ---------------------------------------------------------------------------
  // String#split and Array#join
  // ---------------------------------------------------------------------------

  /** The pieces of `s` between occurrences of `sep`, empty pieces included. */
  function Fields(s: string, sep: char): (r: seq<string>)
    ensures |r| >= 1
    ensures forall k :: 0 <= k < |r| ==> sep !in r[k]
    decreases |s|
  {
    var i := IndexOf(s, sep);
    if i == |s| then [s] else [s[..i]] + Fields(s[i + 1..], sep)
  }

  /** Removes the empty strings at the end of `fs`. */
  function DropTrailingEmpty(fs: seq<string>): (r: seq<string>)
    ensures |r| <= |fs| && r == fs[..|r|]
    ensures r == [] || r[|r| - 1] != ""
    ensures forall k :: |r| <= k < |fs| ==> fs[k] == ""
  {
    if |fs| > 0 && fs[|fs| - 1] == "" then DropTrailingEmpty(fs[..|fs| - 1]) else fs
  }

  /**
   * `s.split(sep)` with a one-character separator and no limit: Ruby drops
   * the empty fields at the end, so `"a.".split('.') == ["a"]` and
   * `"".split('.') == []`.
   */
  function Split(s: string, sep: char): (r: seq<string>)
    ensures r == [] || r[|r| - 1] != ""
    ensures forall k :: 0 <= k < |r| ==> sep !in r[k]
  {
    DropTrailingEmpty(Fields(s, sep))
  }

  /**
   * `s.split(sep, 2)`: at most two fields, cut at the first `sep`; with a
   * limit Ruby keeps an empty last field, and the empty string gives `[]`.
   */
  function SplitOnce(s: string, sep: char): (r: seq<string>)
    ensures s == "" <==> r == []
    ensures |r| <= 2
    ensures |r| == 1 ==> r[0] == s && sep !in s
    ensures |r| == 2 ==> s == r[0] + [sep] + r[1] && sep !in r[0]
  {
    if s == "" then []
    else
      var i := IndexOf(s, sep);
      if i == |s| then [s]
      else
        assert s == s[..i] + [sep] + s[i + 1..];
        [s[..i], s[i + 1..]]
  }

  /** Splitting once at the first `c` of `a + [c] + b` gives `a` and `b`. */
  lemma SplitOnceAt(a: string, c: char, b: string)
    requires c !in a
    ensures SplitOnce(a + [c] + b, c) == [a, b]
  {
    var s := a + [c] + b;
    IndexOfFirst(a, c, b);
    assert s[..|a|] == a;
    assert s[|a| + 1..] == b;
  }

  /** Splitting once a non-empty string without `c` gives the string itself. */
  lemma SplitOnceNone(a: string, c: char)
    requires c !in a && a != ""
    ensures SplitOnce(a, c) == [a]
  {
    IndexOfAbsent(a, c);
  }

  /** `xs.join(sep)` */
  function Join(xs: seq<string>, sep: char): string
  {
    if |xs| == 0 then ""
    else if |xs| == 1 then xs[0]
    else xs[0] + [sep] + Join(xs[1..], sep)
  }

  /** Joining the fields of a string gives the string back. */
  lemma {:induction false} JoinFields(s: string, sep: char)
    ensures Join(Fields(s, sep), sep) == s
    decreases |s|
  {
    var i := IndexOf(s, sep);
    if i < |s| {
      var rest := s[i + 1..];
      JoinFields(rest, sep);
      JoinCons(s[..i], Fields(rest, sep), sep);
      CutAt(s, i);
    }
  }

  /** Joining an element in front of a non-empty list puts a separator between. */
  lemma JoinCons(a: string, xs: seq<string>, sep: char)
    requires |xs| >= 1
    ensures Join([a] + xs, sep) == a + [sep] + Join(xs, sep)
  {
    assert ([a] + xs)[1..] == xs;
  }

  /** A string is its part before position i, the character there, and the rest. */
  lemma CutAt(s: string, i: nat)
    requires i < |s|
    ensures s == s[..i] + [s[i]] + s[i + 1..]
  {
    assert s[i..] == [s[i]] + s[i + 1..];
  }

  /** Splitting a join gives the list back when no element holds the separator. */
  lemma {:induction false} FieldsJoin(xs: seq<string>, sep: char)
    requires |xs| >= 1
    requires forall k :: 0 <= k < |xs| ==> sep !in xs[k]
    ensures Fields(Join(xs, sep), sep) == xs
    decreases |xs|
  {
    if |xs| == 1 {
      IndexOfAbsent(xs[0], sep);
    } else {
      var a, tail := xs[0], xs[1..];
      var rest := Join(tail, sep);
      assert forall k :: 0 <= k < |tail| ==> tail[k] == xs[k + 1];
      FieldsJoin(tail, sep);
      var s := a + [sep] + rest;
      assert Join(xs, sep) == s;
      IndexOfFirst(a, sep, rest);
      assert s[..|a|] == a;
      assert s[|a| + 1..] == rest;
      assert Fields(s, sep) == [a] + Fields(rest, sep);
      assert xs == [a] + tail;
    }
  }

  /**
   * `xs.join(sep).split(sep) == xs` exactly when no element holds `sep` and
   * the list does not end in an empty string.
   */
  lemma SplitJoin(xs: seq<string>, sep: char)
    requires forall k :: 0 <= k < |xs| ==> sep !in xs[k]
    requires xs == [] || xs[|xs| - 1] != ""
    ensures Split(Join(xs, sep), sep) == xs
  {
    if xs == [] {
      assert Fields("", sep) == [""];
    } else {
      FieldsJoin(xs, sep);
    }
  }

  /** A character that is neither the separator nor in any element is not in the join. */
  lemma {:induction false} JoinAvoids(xs: seq<string>, sep: char, c: char)
    requires c != sep
    requires forall k :: 0 <= k < |xs| ==> c !in xs[k]
    ensures c !in Join(xs, sep)
    decreases |xs|
  {
    if |xs| > 1 {
      JoinAvoids(xs[1..], sep, c);
    }
  }

  /** A character of a field of `s` is a character of `s`. */
  lemma {:induction false} FieldsChars(s: string, sep: char, j: nat, k: nat)
    requires j < |Fields(s, sep)| && k < |Fields(s, sep)[j]|
    ensures Fields(s, sep)[j][k] in s
    decreases |s|
  {
    var i := IndexOf(s, sep);
    if i < |s| && j > 0 {
      FieldsChars(s[i + 1..], sep, j - 1, k);
      var c := Fields(s[i + 1..], sep)[j - 1][k];
      assert c in s[i + 1..];
    } else if i < |s| {
      assert Fields(s, sep)[0][k] == s[k];
    }
  }

  /** The fields of a string holding the separator: the text before it, then the fields after it. */
  lemma FieldsCons(s: string, sep: char)
    requires IndexOf(s, sep) < |s|
    ensures Fields(s, sep) == [s[..IndexOf(s, sep)]] + Fields(s[IndexOf(s, sep) + 1..], sep)
  {
  }

  /** Every character of `s` other than the separator lies in some field. */
  lemma {:induction false} CharInFields(s: string, sep: char, p: nat)
    requires p < |s| && s[p] != sep
    ensures exists j, k :: 0 <= j < |Fields(s, sep)| && 0 <= k < |Fields(s, sep)[j]|
                           && Fields(s, sep)[j][k] == s[p]
    decreases |s|
  {
    var i := IndexOf(s, sep);
    var f := Fields(s, sep);
    if p < i {
      assert f[0] == s[..i];
      assert f[0][p] == s[p];
    } else {
      assert p != i && i < |s|;
      var rest := s[i + 1..];
      assert rest[p - i - 1] == s[p];
      CharInFields(rest, sep, p - i - 1);
      var g := Fields(rest, sep);
      var j, k :| 0 <= j < |g| && 0 <= k < |g[j]| && g[j][k] == s[p];
      FieldsCons(s, sep);
      assert f[j + 1] == g[j];
    }
  }

  // ---------------------------------------------------------------------------
  // Kernel#Integer(s, 10) and Integer#to_s
  // ---------------------------------------------------------------------------

  predicate IsDigit(c: char) { '0' <= c <= '9' }

  /** A non-empty string of ASCII decimal digits. */
  predicate IsDigits(s: string) { |s| > 0 && forall k :: 0 <= k < |s| ==> IsDigit(s[k]) }

  /** The decimal value of a digit string, 0 for the empty one. */
  function DigitsValue(s: string): nat
    requires s == "" || IsDigits(s)
  {
    if |s| == 0 then 0
    else
      var init := s[..|s| - 1];
      assert forall k :: 0 <= k < |init| ==> init[k] == s[k];
      assert IsDigit(s[|s| - 1]);
      10 * DigitsValue(init) + (s[|s| - 1] as int - '0' as int)
  }

  /**
   * `Integer(s, 10)`, with `None` where Ruby raises: an optional leading '-'
   * followed by one or more decimal digits (leading zeros allowed).
   */
  function ParseInteger(s: string): (r: Option<int>)
    ensures '-' !in s ==> (r.Some? <==> IsDigits(s))
    ensures '-' !in s && r.Some? ==> r.value == DigitsValue(s)
  {
    if IsDigits(s) then Some(DigitsValue(s))
    else if |s| >= 2 && s[0] == '-' && IsDigits(s[1..]) then Some(-(DigitsValue(s[1..]) as int))
    else None
  }

  function DigitChar(d: nat): char
    requires d < 10
  {
    ('0' as int + d) as char
  }

  /** `n.to_s` for n >= 0: decimal digits, no leading zero. */
  function NatToS(n: nat): (s: string)
    ensures IsDigits(s)
    decreases n
  {
    if n < 10 then [DigitChar(n)] else NatToS(n / 10) + [DigitChar(n % 10)]
  }

  /** `n.to_s` */
  function IntToS(n: int): string
  {
    if n < 0 then "-" + NatToS(-n) else NatToS(n)
  }

  lemma {:induction false} DigitsValueNatToS(n: nat)
    ensures DigitsValue(NatToS(n)) == n
    decreases n
  {
    if n >= 10 {
      DigitsValueNatToS(n / 10);
      var s := NatToS(n);
      assert s[..|s| - 1] == NatToS(n / 10);
    }
  }

  /** `Integer(n.to_s, 10) == n` for every integer n. */
  lemma ParseIntegerToS(n: int)
    ensures ParseInteger(IntToS(n)) == Some(n)
  {
    if n < 0 {
      DigitsValueNatToS(-n);
      var s := IntToS(n);
      assert s[1..] == NatToS(-n);
      assert !IsDigit(s[0]);
    } else {
      DigitsValueNatToS(n);
    }
  }

  /** `x <=> y` on integers. */
  function Spaceship(x: int, y: int): (r: int)
    ensures r == -1 || r == 0 || r == 1
    ensures r == 0 <==> x == y
    ensures r == -1 <==> x < y
  {
    if x < y then -1 else if x > y then 1 else 0
  }

  // ---------------------------------------------------------------------------
  // String#casecmp
  // ---------------------------------------------------------------------------

  /** Folds ASCII upper case to lower case; other characters are unchanged. */
  function Downcase(c: char): char
  {
    if 'A' <= c <= 'Z' then (c as int + 32) as char else c
  }

  function DowncaseAll(s: string): (r: string)
    ensures |r| == |s|
    ensures forall k :: 0 <= k < |s| ==> r[k] == Downcase(s[k])
  {
    seq(|s|, k requires 0 <= k < |s| => Downcase(s[k]))
  }

  /**
   * `a.casecmp(b)`: -1, 0 or 1 by comparing the two strings character by
   * character after folding ASCII case; a proper prefix sorts first.
   */
  function CaseCmp(a: string, b: string): (r: int)
    ensures -1 <= r <= 1
  {
    if |a| == 0 then (if |b| == 0 then 0 else -1)
    else if |b| == 0 then 1
    else if Downcase(a[0]) < Downcase(b[0]) then -1
    else if Downcase(a[0]) > Downcase(b[0]) then 1
    else CaseCmp(a[1..], b[1..])
  }

  /** casecmp is 0 exactly when the two strings are equal up to ASCII case. */
  lemma {:induction false} CaseCmpZero(a: string, b: string)
    ensures CaseCmp(a, b) == 0 <==> DowncaseAll(a) == DowncaseAll(b)
  {
    if |a| > 0 && |b| > 0 {
      CaseCmpZero(a[1..], b[1..]);
      assert DowncaseAll(a) == [Downcase(a[0])] + DowncaseAll(a[1..]);
      assert DowncaseAll(b) == [Downcase(b[0])] + DowncaseAll(b[1..]);
    }
  }

  lemma {:induction false} CaseCmpAntisymmetric(a: string, b: string)
    ensures CaseCmp(a, b) == -CaseCmp(b, a)
  {
    if |a| > 0 && |b| > 0 && Downcase(a[0]) == Downcase(b[0]) {
      CaseCmpAntisymmetric(a[1..], b[1..]);
    }
  }

  lemma {:induction false} CaseCmpTransitive(a: string, b: string, c: string)
    ensures CaseCmp(a, b) <= 0 && CaseCmp(b, c) <= 0 ==> CaseCmp(a, c) <= 0
  {
    if |a| > 0 && |b| > 0 && |c| > 0 && Downcase(a[0]) == Downcase(b[0]) == Downcase(c[0]) {
      CaseCmpTransitive(a[1..], b[1..], c[1..]);
    }
  }
}
