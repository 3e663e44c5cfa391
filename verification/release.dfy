/** The `--release` argument check: `re.match('[0-9]+\.[0-9]+', release)`. */
module Release {
  import opened Wrappers
  import opened Decimal
  import opened Errors

  /** What `re.match` finds: at the very start, a greedy run of digits, a dot, and at least one
      more digit. Nothing is required after that, since `re.match` anchors only at the start. */
  predicate MatchesReleasePattern(s: string) {
    var k := DigitRun(s);
    0 < k < |s| && s[k] == '.' && DigitRun(s[k + 1..]) > 0
  }

  /** `check_release`: the argument itself, or the error argparse reports for it. */
  function CheckRelease(release: string): (r: Result<string, DeployError>)
    ensures r.Success? <==> MatchesReleasePattern(release)
    ensures r.Success? ==> r.value == release
    ensures r.Failure? ==> r.error == BadRelease(release)
  {
    if MatchesReleasePattern(release) then Success(release) else Failure(BadRelease(release))
  }

  /** `s[..j]` is `digits "." digits` with the dot at `i` and both runs non-empty. */
  predicate ReleasePrefixAt(s: string, i: nat, j: nat) {
    0 < i && i + 1 < j <= |s| && AllDigits(s[..i]) && s[i] == '.' && AllDigits(s[i + 1..j])
  }

  /** Some prefix of `s` has that shape. */
  ghost predicate HasReleasePrefix(s: string) {
    exists i: nat, j: nat :: ReleasePrefixAt(s, i, j)
  }

  /** The greedy reading accepts exactly the strings with such a prefix: backtracking the first
      run never helps, because a dot is not a digit. */
  lemma MatchesIff(s: string)
    ensures MatchesReleasePattern(s) <==> HasReleasePrefix(s)
  {
    if MatchesReleasePattern(s) {
      var k := DigitRun(s);
      var t := s[k + 1..];
      var m := DigitRun(t);
      assert s[k + 1..k + 1 + m] == t[..m];
      assert ReleasePrefixAt(s, k, k + 1 + m);
    }
    if HasReleasePrefix(s) {
      var i: nat, j: nat :| ReleasePrefixAt(s, i, j);
      assert s == s[..i] + s[i..];
      DigitRunOf(s[..i], s[i..]);
      assert DigitRun(s) == i;
      var t := s[i + 1..];
      assert IsDigit(t[0]) by {
        assert t[0] == s[i + 1..j][0];
      }
    }
  }

  /** Trailing text after the pattern is accepted. */
  lemma TrailingTextAccepted()
    ensures CheckRelease("3.0abc") == Success("3.0abc")
  {
    var s := "3.0abc";
    MatchesIff(s);
    assert s[..1] == "3" && s[2..3] == "0";
    assert ReleasePrefixAt(s, 1, 3);
  }

  /** A bare major number, a leading letter and a missing minor number are rejected. */
  lemma MalformedRejected()
    ensures CheckRelease("3") == Failure(BadRelease("3"))
    ensures CheckRelease("v3.0") == Failure(BadRelease("v3.0"))
    ensures CheckRelease("3.") == Failure(BadRelease("3."))
  {
    assert DigitRun("v3.0") == 0;
    var s := "3.";
    assert DigitRun(s) == 1 by {
      assert s[1..] == ".";
    }
  }
}
