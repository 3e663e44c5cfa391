/** Specification versions as `distutils.version.LooseVersion` sees dotted-numeric strings:
    the maximal digit runs, compared as Python compares lists of ints. */
module Version {
  import opened Wrappers
  import opened Decimal

  type Version = seq<nat>

  /** Python's `a < b` on integer lists: the first differing component decides,
      and a proper prefix is smaller (so 1 < 1.0; missing components are not zero). */
  predicate Less(a: Version, b: Version)
    decreases |a|
  {
    |b| > 0 && (|a| == 0 || a[0] < b[0] || (a[0] == b[0] && Less(a[1..], b[1..])))
  }

  /** Reference definition of the same order, without recursion. */
  ghost predicate ProperPrefix(a: Version, b: Version) {
    |a| < |b| && a == b[..|a|]
  }

  ghost predicate FirstDifferenceSmaller(a: Version, b: Version, k: nat) {
    k < |a| && k < |b| && a[..k] == b[..k] && a[k] < b[k]
  }

  ghost predicate LexLess(a: Version, b: Version) {
    ProperPrefix(a, b) || exists k: nat :: FirstDifferenceSmaller(a, b, k)
  }

  lemma {:induction false} LessIsLexLess(a: Version, b: Version)
    ensures Less(a, b) <==> LexLess(a, b)
    decreases |a|
  {
    if |b| == 0 {
      assert !LexLess(a, b);
    } else if |a| == 0 {
      assert ProperPrefix(a, b);
    } else if a[0] < b[0] {
      assert FirstDifferenceSmaller(a, b, 0);
    } else if a[0] > b[0] {
      if |a| < |b| {
        assert b[..|a|][0] == b[0];
      }
      forall k: nat ensures !FirstDifferenceSmaller(a, b, k) {
        if 0 < k < |a| && k < |b| {
          assert a[..k][0] == a[0] && b[..k][0] == b[0];
        }
      }
    } else {
      LessIsLexLess(a[1..], b[1..]);
      if Less(a[1..], b[1..]) {
        if ProperPrefix(a[1..], b[1..]) {
          assert a == [a[0]] + a[1..];
          assert b[..|a|] == [b[0]] + b[1..][..|a| - 1];
          assert ProperPrefix(a, b);
        } else {
          var k: nat :| FirstDifferenceSmaller(a[1..], b[1..], k);
          assert a[..k + 1] == [a[0]] + a[1..][..k];
          assert b[..k + 1] == [b[0]] + b[1..][..k];
          assert FirstDifferenceSmaller(a, b, k + 1);
        }
      }
      if LexLess(a, b) {
        if ProperPrefix(a, b) {
          assert a[1..] == b[..|a|][1..];
          assert ProperPrefix(a[1..], b[1..]);
        } else {
          var k: nat :| FirstDifferenceSmaller(a, b, k);
          assert k > 0;
          assert a[1..][..k - 1] == a[..k][1..];
          assert b[1..][..k - 1] == b[..k][1..];
          assert FirstDifferenceSmaller(a[1..], b[1..], k - 1);
        }
      }
    }
  }

  lemma {:induction false} LessIrreflexive(a: Version)
    ensures !Less(a, a)
    decreases |a|
  {
    if |a| > 0 {
      LessIrreflexive(a[1..]);
    }
  }

  lemma {:induction false} LessTransitive(a: Version, b: Version, c: Version)
    requires Less(a, b) && Less(b, c)
    ensures Less(a, c)
    decreases |a|
  {
    if |a| > 0 && a[0] == b[0] && b[0] == c[0] {
      LessTransitive(a[1..], b[1..], c[1..]);
    }
  }

  /** Any two versions are ordered one way, the other, or are equal. */
  lemma {:induction false} LessTrichotomous(a: Version, b: Version)
    ensures Less(a, b) || a == b || Less(b, a)
    ensures !(Less(a, b) && Less(b, a))
    decreases |a|
  {
    if |a| > 0 && |b| > 0 && a[0] == b[0] {
      LessTrichotomous(a[1..], b[1..]);
      if a[1..] == b[1..] {
        assert a == [a[0]] + a[1..] && b == [b[0]] + b[1..];
      }
    }
  }

  /** A dotted-numeric string: only digits and dots. */
  predicate DottedNumeric(s: string) {
    forall i | 0 <= i < |s| :: IsDigit(s[i]) || s[i] == '.'
  }

  /** The components LooseVersion extracts: every maximal digit run, dots dropped. */
  function Components(s: string): (v: Version)
    requires DottedNumeric(s)
    decreases |s|
  {
    if |s| == 0 then []
    else if s[0] == '.' then Components(s[1..])
    else
      var k := DigitRun(s);
      [ValueOf(s[..k])] + Components(s[k..])
  }

  /** `LooseVersion(vstring)` as far as it can be compared: `None` and the empty string
      leave it unparsed (comparing it then raises), other strings are restricted to
      dotted-numeric ones. */
  function Parse(vstring: Option<string>): (r: Option<Version>)
    ensures r.Some? <==> vstring.Some? && vstring.value != "" && DottedNumeric(vstring.value)
  {
    match vstring
    case None => None
    case Some(s) => if s != "" && DottedNumeric(s) then Some(Components(s)) else None
  }

  /** The canonical dotted spelling of a version. */
  function Format(v: Version): string
    decreases |v|
  {
    if |v| == 0 then ""
    else if |v| == 1 then FromNat(v[0])
    else FromNat(v[0]) + "." + Format(v[1..])
  }

  lemma {:induction false} DottedAppend(a: string, b: string)
    requires DottedNumeric(a) && DottedNumeric(b)
    ensures DottedNumeric(a + b)
  {
    assert forall i | 0 <= i < |a + b| :: (a + b)[i] == if i < |a| then a[i] else b[i - |a|];
  }

  lemma ComponentsOfDigits(d: string)
    requires 0 < |d| && AllDigits(d)
    ensures DottedNumeric(d) && Components(d) == [ValueOf(d)]
  {
    DigitRunOf(d, "");
    assert d + "" == d;
    assert d[..|d|] == d;
    assert IsDigit(d[0]);
  }

  lemma ComponentsOfDigitsDot(d: string, rest: string)
    requires 0 < |d| && AllDigits(d) && DottedNumeric(rest)
    ensures DottedNumeric(d + "." + rest)
    ensures Components(d + "." + rest) == [ValueOf(d)] + Components(rest)
  {
    var s := d + ("." + rest);
    assert d + "." + rest == s;
    DottedAppend(".", rest);
    DottedAppend(d, "." + rest);
    DigitRunOf(d, "." + rest);
    assert IsDigit(s[0]);
    assert s[..|d|] == d;
    assert s[|d|..] == "." + rest;
    assert ("." + rest)[1..] == rest;
  }

  /** Parsing the canonical spelling gives the version back. */
  lemma {:induction false} ParseFormat(v: Version)
    requires |v| > 0
    ensures Format(v) != "" && DottedNumeric(Format(v))
    ensures Parse(Some(Format(v))) == Some(v)
    decreases |v|
  {
    if |v| == 1 {
      ComponentsOfDigits(FromNat(v[0]));
      assert v == [v[0]];
    } else {
      ParseFormat(v[1..]);
      ComponentsOfDigitsDot(FromNat(v[0]), Format(v[1..]));
      assert v == [v[0]] + v[1..];
    }
  }

  /** "1.10" is newer than "1.9": components compare numerically, not as text. */
  lemma NumericNotLexical()
    ensures Parse(Some("1.9")) == Some([1, 9])
    ensures Parse(Some("1.10")) == Some([1, 10])
    ensures Less([1, 9], [1, 10])
  {
    ParseFormat([1, 9]);
    ParseFormat([1, 10]);
    assert Format([1, 9]) == "1.9";
    assert FromNat(10) == "10";
    assert Format([1, 10]) == "1.10";
  }

  /** "1" is older than "1.0": a missing component is not read as zero. */
  lemma PrefixIsOlder()
    ensures Parse(Some("1")) == Some([1])
    ensures Parse(Some("1.0")) == Some([1, 0])
    ensures Less([1], [1, 0]) && !Less([1, 0], [1])
  {
    ParseFormat([1]);
    ParseFormat([1, 0]);
    assert Format([1]) == "1";
    assert Format([1, 0]) == "1.0";
  }
}
