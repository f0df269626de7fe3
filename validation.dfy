/**
 * The predicate that decides whether a decoded string looks like a Unity
 * version: a length bound, an allow-list of leading major versions, a dot,
 * and a full match of the shape `YYYY.MINOR.PATCH[letter][build]` or
 * `D.MINOR.PATCH[letter][build]`.
 */
module Validation {

  const MIN_LENGTH := 5
  const MAX_LENGTH := 20

  /** The twelve recognised leading major versions, years first. */
  const VALID_STARTS: seq<string> :=
    ["2017", "2018", "2019", "2020", "2021", "2022", "2023", "2024", "2025", "5.", "4.", "3."]

  predicate IsDigitChar(c: char) { '0' <= c <= '9' }

  predicate IsLetterChar(c: char) { 'A' <= c <= 'Z' || 'a' <= c <= 'z' }

  /**
   * The end of the maximal run of digits that starts at `i`. The validator
   * works on decoded text, so this runs over characters; the byte patterns
   * have their own run over bytes, `Patterns.DigitRunEnd`.
   */
  function DigitsEnd(s: string, i: nat): (j: nat)
    requires i <= |s|
    ensures i <= j <= |s|
    ensures forall k :: i <= k < j ==> IsDigitChar(s[k])
    ensures j == |s| || !IsDigitChar(s[j])
    decreases |s| - i
  {
    if i < |s| && IsDigitChar(s[i]) then DigitsEnd(s, i + 1) else i
  }

  /**
   * `s[i..]` is exactly `\d+\.\d+[a-zA-Z]?\d*`: minor, dot, patch, an optional
   * letter and optional build digits. The digit runs are maximal because a
   * shorter run would leave a digit where a dot or the end is needed.
   */
  predicate MinorPatchFrom(s: string, i: nat)
    requires i <= |s|
  {
    var a := DigitsEnd(s, i);
    a > i && a < |s| && s[a] == '.' &&
    var b := DigitsEnd(s, a + 1);
    b > a + 1 &&
    (b == |s| || (IsLetterChar(s[b]) && DigitsEnd(s, b + 1) == |s|))
  }

  /** Either alternative of the shape, each anchored at both ends. */
  predicate Shape(s: string)
  {
    (|s| >= 5 && IsDigitChar(s[0]) && IsDigitChar(s[1]) && IsDigitChar(s[2]) && IsDigitChar(s[3])
      && s[4] == '.' && MinorPatchFrom(s, 5))
    || (|s| >= 2 && IsDigitChar(s[0]) && s[1] == '.' && MinorPatchFrom(s, 2))
  }

  /**
   * `re.match` of the shape: a `$` without MULTILINE also matches just
   * before a final newline, so a shaped string followed by "\n" passes too.
   */
  predicate FullMatch(s: string)
  {
    Shape(s) || (|s| > 0 && s[|s| - 1] == '\n' && Shape(s[..|s| - 1]))
  }

  /** `s.startswith(p)` for one of the prefixes `ps`, tried in order. */
  predicate StartsWithAny(s: string, ps: seq<string>)
  {
    ps != [] && (ps[0] <= s || StartsWithAny(s, ps[1..]))
  }

  /** Trying the prefixes in order finds one exactly when some prefix in the list starts `s`. */
  lemma {:induction false} StartsWithAnySpec(s: string, ps: seq<string>)
    ensures StartsWithAny(s, ps) <==> exists p :: p in ps && p <= s
  {
    if ps != [] {
      StartsWithAnySpec(s, ps[1..]);
      if ps[0] <= s {
        assert ps[0] in ps;
      } else {
        forall p | p in ps && p <= s
          ensures p in ps[1..]
        {
          var k :| 0 <= k < |ps| && ps[k] == p;
          assert k != 0;
          assert ps[1..][k - 1] == p;
        }
        forall p | p in ps[1..]
          ensures p in ps
        {
          var k :| 0 <= k < |ps[1..]| && ps[1..][k] == p;
          assert ps[k + 1] == p;
        }
      }
    }
  }

  predicate HasValidStart(s: string)
  {
    StartsWithAny(s, VALID_STARTS)
  }

  /** The validation predicate, with its checks in the order the extractor makes them. */
  predicate IsValidUnityVersion(s: string)
    ensures IsValidUnityVersion(s) ==> MIN_LENGTH <= |s| <= MAX_LENGTH && IsDigitChar(s[0])
  {
    if |s| == 0 || |s| < MIN_LENGTH || |s| > MAX_LENGTH then false
    else if !HasValidStart(s) then false
    else if '.' !in s then false
    else FullMatch(s)
  }

  /** A full year version passes. */
  lemma AcceptsYearVersion()
    ensures IsValidUnityVersion("2021.3.1f1")
  {
    var s := "2021.3.1f1";
    assert StartsWithAny(s, VALID_STARTS) by {
      StartsWithAnySpec(s, VALID_STARTS);
      assert "2021" in VALID_STARTS && "2021" <= s;
    }
    assert s[4] == '.' && s[4] in s;
    assert DigitsEnd(s, 5) == 6;
    assert DigitsEnd(s, 7) == 8;
    assert DigitsEnd(s, 9) == 10;
  }

  /** A legacy `X.Y.Z` version passes. */
  lemma AcceptsLegacyVersion()
    ensures IsValidUnityVersion("5.6.4")
  {
    var s := "5.6.4";
    assert StartsWithAny(s, VALID_STARTS) by {
      StartsWithAnySpec(s, VALID_STARTS);
      assert "5." in VALID_STARTS && "5." <= s;
    }
    assert s[1] == '.' && s[1] in s;
    assert DigitsEnd(s, 2) == 3;
    assert DigitsEnd(s, 4) == 5;
  }

  /** No prefix whose first character differs from that of `s` starts it. */
  lemma {:induction false} NoStartWith(s: string, ps: seq<string>)
    requires |s| > 0
    requires forall j :: 0 <= j < |ps| ==> |ps[j]| > 0 && ps[j][0] != s[0]
    ensures !StartsWithAny(s, ps)
  {
    if ps != [] {
      NoStartWith(s, ps[1..]);
    }
  }

  /** Too short a string, with or without a dot, and a major version outside the allow-list are refused. */
  lemma RejectsExamples()
    ensures !IsValidUnityVersion("20")
    ensures !IsValidUnityVersion("20xx")
    ensures !IsValidUnityVersion("10.2.3")
    ensures |"20"| < MIN_LENGTH && |"20xx"| < MIN_LENGTH
    ensures MIN_LENGTH <= |"10.2.3"| <= MAX_LENGTH && !HasValidStart("10.2.3")
  {
    var s := "10.2.3";
    forall j | 0 <= j < |VALID_STARTS|
      ensures |VALID_STARTS[j]| > 0 && VALID_STARTS[j][0] != s[0]
    {
    }
    NoStartWith(s, VALID_STARTS);
  }

  /** `$` lets a trailing newline through the full match. */
  lemma TrailingNewlineAccepted()
    ensures IsValidUnityVersion("5.6.4\n")
  {
    var s := "5.6.4\n";
    AcceptsLegacyVersion();
    assert "5.6.4"[4] != '\n';
    assert s[..5] == "5.6.4";
    assert StartsWithAny(s, VALID_STARTS) by {
      StartsWithAnySpec(s, VALID_STARTS);
      assert "5." in VALID_STARTS && "5." <= s;
    }
    assert s[1] in s;
  }

  lemma MinorPatchHasDot(s: string, i: nat)
    requires i <= |s| && MinorPatchFrom(s, i)
    ensures '.' in s
  {
    assert s[DigitsEnd(s, i)] == '.';
  }

  lemma ShapeHasDot(s: string)
    requires Shape(s)
    ensures '.' in s
  {
    if |s| >= 5 && s[4] == '.' {
      assert s[4] in s;
    } else {
      assert s[1] in s;
    }
  }

  /**
   * The dot check is implied by the full match: validity is exactly the
   * length bound, an allowed start and the shape.
   */
  lemma {:induction false} DotCheckRedundant(s: string)
    ensures IsValidUnityVersion(s) <==>
      MIN_LENGTH <= |s| <= MAX_LENGTH && HasValidStart(s) && FullMatch(s)
  {
    if FullMatch(s) {
      if Shape(s) {
        ShapeHasDot(s);
      } else {
        var t := s[..|s| - 1];
        ShapeHasDot(t);
        var k :| 0 <= k < |t| && t[k] == '.';
        assert s[k] == '.';
      }
    }
  }

  /** The characters a string allowed by `MinorPatchFrom` may contain. */
  predicate IsVersionChar(c: char) { IsDigitChar(c) || IsLetterChar(c) || c == '.' }

  lemma MinorPatchChars(s: string, i: nat)
    requires i <= |s| && MinorPatchFrom(s, i)
    ensures forall k :: i <= k < |s| ==> IsVersionChar(s[k])
  {
    var a := DigitsEnd(s, i);
    var b := DigitsEnd(s, a + 1);
    forall k | i <= k < |s|
      ensures IsVersionChar(s[k])
    {
      if k < a {
      } else if k == a {
      } else if k < b {
      } else if k == b {
      } else {
        assert DigitsEnd(s, b + 1) == |s|;
      }
    }
  }

  lemma ShapeChars(s: string)
    requires Shape(s)
    ensures forall k :: 0 <= k < |s| ==> IsVersionChar(s[k])
  {
    if |s| >= 5 && IsDigitChar(s[0]) && IsDigitChar(s[1]) && IsDigitChar(s[2]) && IsDigitChar(s[3])
      && s[4] == '.' && MinorPatchFrom(s, 5)
    {
      MinorPatchChars(s, 5);
    } else {
      MinorPatchChars(s, 2);
    }
  }

  /**
   * A valid version consists of digits, ASCII letters and dots, except for
   * the one trailing newline the `$` anchor admits.
   */
  lemma ValidChars(s: string)
    requires IsValidUnityVersion(s)
    ensures forall k :: 0 <= k < |s| ==> IsVersionChar(s[k]) || (k == |s| - 1 && s[k] == '\n')
  {
    if Shape(s) {
      ShapeChars(s);
    } else {
      var t := s[..|s| - 1];
      ShapeChars(t);
      assert forall k :: 0 <= k < |t| ==> s[k] == t[k];
    }
  }

  /**
   * A valid version starts with one of the allowed majors, and its major is
   * either four digits or a single digit, followed by a dot.
   */
  lemma ValidMajor(s: string)
    requires IsValidUnityVersion(s)
    ensures exists p :: p in VALID_STARTS && p <= s
    ensures (s[4] == '.' && forall k :: 0 <= k < 4 ==> IsDigitChar(s[k])) || (IsDigitChar(s[0]) && s[1] == '.')
  {
    StartsWithAnySpec(s, VALID_STARTS);
    if !Shape(s) {
      var t := s[..|s| - 1];
      assert forall k :: 0 <= k < |t| ==> s[k] == t[k];
    }
  }
}
