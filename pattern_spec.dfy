/**
 * What the three version patterns mean, stated declaratively, and the proof
 * that the greedy scanners of `Patterns` find exactly the match a
 * backtracking regular-expression engine reports: at a given offset there
 * is a match exactly when the scanner returns one, and the scanner's group
 * starts where every match's group starts and is the longest of them.
 * Then `findall`: its captures are the groups of the leftmost matches, each
 * search resuming where the previous match ended.
 */
module PatternSpec {

  import opened Wrappers
  import opened Bytes
  import opened Patterns

  /** `w[i..j]` is a run of digits, possibly empty. */
  predicate Digits(w: seq<byte>, i: nat, j: nat)
  {
    i <= j <= |w| && forall k :: i <= k < j ==> IsDigit(w[k])
  }

  /** `w[lo..c]` spells `\d+\.\d+\.\d+`, with its two dots at `a` and `b`. */
  predicate TripleSplit(w: seq<byte>, lo: nat, a: nat, b: nat, c: nat)
  {
    && lo < a && a + 1 < b && b + 1 < c
    && Digits(w, b + 1, c) && Digits(w, lo, a) && Digits(w, a + 1, b)
    && IsDot(w[a]) && IsDot(w[b])
  }

  /** `w[lo..c]` spells `\d+\.\d+\.\d+`. */
  ghost predicate IsTriple(w: seq<byte>, lo: nat, c: nat)
  {
    exists a: nat, b: nat :: TripleSplit(w, lo, a, b, c)
  }

  /** `w[c..hi]` spells `[a-zA-Z]?\d*`. */
  predicate IsSuffix(w: seq<byte>, c: nat, hi: nat)
  {
    Digits(w, c, hi) || (c < hi && Digits(w, c + 1, hi) && IsLetter(w[c]))
  }

  /** `w[lo..hi]` spells `\d+\.\d+\.\d+[a-zA-Z]?\d*`. */
  ghost predicate IsFullVersion(w: seq<byte>, lo: nat, hi: nat)
  {
    exists a: nat, b: nat, c: nat :: TripleSplit(w, lo, a, b, c) && IsSuffix(w, c, hi)
  }

  /** `w[i..j]` spells `[:\s]+`. */
  predicate Separators(w: seq<byte>, i: nat, j: nat)
  {
    i < j <= |w| && forall k :: i <= k < j ==> w[k] == 0x3A || IsSpace(w[k])
  }

  /**
   * Pattern `p` matches the bytes from offset `i` on, with its group spelled
   * by `w[lo..hi]`; every pattern ends with its group, so the match ends at
   * `hi` as well.
   */
  ghost predicate MatchesWith(p: Pattern, w: seq<byte>, i: nat, lo: nat, hi: nat)
  {
    match p
    case BareVersion => lo == i && IsFullVersion(w, lo, hi)
    case UnityPrefixed => MatchesFolded(w, i, UNITY_SPACE) && lo == i + |UNITY_SPACE| && IsTriple(w, lo, hi)
    case UnityVersionLabel =>
      MatchesFolded(w, i, UNITY_VERSION) && Separators(w, i + |UNITY_VERSION|, lo) && IsFullVersion(w, lo, hi)
  }

  // The greedy runs

  lemma {:induction false} DigitRunEndIs(w: seq<byte>, i: nat, j: nat)
    requires Digits(w, i, j) && (j == |w| || !IsDigit(w[j]))
    ensures DigitRunEnd(w, i) == j
    decreases j - i
  {
    if i < j {
      DigitRunEndIs(w, i + 1, j);
    }
  }

  lemma {:induction false} DigitRunEndCovers(w: seq<byte>, i: nat, j: nat)
    requires Digits(w, i, j)
    ensures j <= DigitRunEnd(w, i)
    decreases j - i
  {
    if i < j {
      DigitRunEndCovers(w, i + 1, j);
    }
  }

  lemma {:induction false} SeparatorRunEndIs(w: seq<byte>, i: nat, j: nat)
    requires i <= j <= |w| && forall k :: i <= k < j ==> w[k] == 0x3A || IsSpace(w[k])
    requires j == |w| || !(w[j] == 0x3A || IsSpace(w[j]))
    ensures SeparatorRunEnd(w, i) == j
    decreases j - i
  {
    if i < j {
      SeparatorRunEndIs(w, i + 1, j);
    }
  }

  /**
   * The triple scanner succeeds exactly when `\d+\.\d+\.\d+` matches at
   * `lo`; its dots are the only possible ones and its end is the furthest.
   */
  lemma TripleEndSpec(w: seq<byte>, lo: nat)
    requires lo <= |w|
    ensures TripleEnd(w, lo).Some? ==>
      var a := DigitRunEnd(w, lo);
      TripleSplit(w, lo, a, DigitRunEnd(w, a + 1), TripleEnd(w, lo).value)
    ensures forall a: nat, b: nat, c: nat :: TripleSplit(w, lo, a, b, c) ==>
      TripleEnd(w, lo).Some? && c <= TripleEnd(w, lo).value
      && (c < TripleEnd(w, lo).value ==> IsDigit(w[c]))
  {
    forall a: nat, b: nat, c: nat | TripleSplit(w, lo, a, b, c)
      ensures TripleEnd(w, lo).Some? && c <= TripleEnd(w, lo).value
      ensures c < TripleEnd(w, lo).value ==> IsDigit(w[c])
    {
      DigitRunEndIs(w, lo, a);
      DigitRunEndIs(w, a + 1, b);
      DigitRunEndCovers(w, b + 1, c);
    }
  }

  /** The suffix scanner spells `[a-zA-Z]?\d*` and takes the longest such span. */
  lemma SuffixEndSpec(w: seq<byte>, c: nat)
    requires c <= |w|
    ensures IsSuffix(w, c, SuffixEnd(w, c))
    ensures forall h: nat :: IsSuffix(w, c, h) ==> h <= SuffixEnd(w, c)
  {
    forall h: nat | IsSuffix(w, c, h) ensures h <= SuffixEnd(w, c) {
      if Digits(w, c, h) {
        if c < |w| && IsLetter(w[c]) {
          assert h == c;
        } else {
          DigitRunEndCovers(w, c, h);
        }
      } else {
        DigitRunEndCovers(w, c + 1, h);
      }
    }
  }

  /** A full version at `lo` ends no later than the greedy scan's end. */
  lemma FullVersionBound(w: seq<byte>, lo: nat, a: nat, b: nat, c: nat, h: nat)
    requires lo <= |w| && TripleSplit(w, lo, a, b, c) && IsSuffix(w, c, h)
    ensures TripleEnd(w, lo).Some? && h <= SuffixEnd(w, TripleEnd(w, lo).value)
  {
    TripleEndSpec(w, lo);
    var e := TripleEnd(w, lo).value;
    SuffixEndSpec(w, e);
    SuffixEndSpec(w, c);
    if c < e {
      assert Digits(w, c, h);
      DigitRunEndIs(w, c, e);
      DigitRunEndCovers(w, c, h);
    }
  }

  /** What the greedy full-version scan finds at `lo` is a full version. */
  lemma FullVersionFound(w: seq<byte>, lo: nat)
    requires lo <= |w| && TripleEnd(w, lo).Some?
    ensures IsFullVersion(w, lo, SuffixEnd(w, TripleEnd(w, lo).value))
  {
    TripleEndSpec(w, lo);
    var a := DigitRunEnd(w, lo);
    var c := TripleEnd(w, lo).value;
    SuffixEndSpec(w, c);
    assert TripleSplit(w, lo, a, DigitRunEnd(w, a + 1), c) && IsSuffix(w, c, SuffixEnd(w, c));
  }

  lemma BareVersionSpec(w: seq<byte>, i: nat)
    requires i <= |w|
    ensures var r := MatchAt(BareVersion, w, i);
      && (r.Some? ==> MatchesWith(BareVersion, w, i, r.value.group.lo, r.value.group.hi))
      && forall lo: nat, hi: nat :: MatchesWith(BareVersion, w, i, lo, hi) ==>
           r.Some? && lo == r.value.group.lo && hi <= r.value.group.hi
  {
    if TripleEnd(w, i).Some? {
      FullVersionFound(w, i);
    }
    forall lo: nat, hi: nat | MatchesWith(BareVersion, w, i, lo, hi)
      ensures MatchAt(BareVersion, w, i).Some? && hi <= MatchAt(BareVersion, w, i).value.group.hi
    {
      var a, b, c :| TripleSplit(w, lo, a, b, c) && IsSuffix(w, c, hi);
      FullVersionBound(w, lo, a, b, c, hi);
    }
  }

  lemma UnityPrefixedSpec(w: seq<byte>, i: nat)
    requires i <= |w|
    ensures var r := MatchAt(UnityPrefixed, w, i);
      && (r.Some? ==> MatchesWith(UnityPrefixed, w, i, r.value.group.lo, r.value.group.hi))
      && forall lo: nat, hi: nat :: MatchesWith(UnityPrefixed, w, i, lo, hi) ==>
           r.Some? && lo == r.value.group.lo && hi <= r.value.group.hi
  {
    var lo := i + |UNITY_SPACE|;
    if MatchesFolded(w, i, UNITY_SPACE) {
      TripleEndSpec(w, lo);
      if TripleEnd(w, lo).Some? {
        var a := DigitRunEnd(w, lo);
        assert TripleSplit(w, lo, a, DigitRunEnd(w, a + 1), TripleEnd(w, lo).value);
      }
    }
  }

  /** A label match found by the scanner is a match of the pattern. */
  lemma LabelFound(w: seq<byte>, i: nat)
    requires i <= |w| && MatchAt(UnityVersionLabel, w, i).Some?
    ensures var g := MatchAt(UnityVersionLabel, w, i).value.group;
      MatchesWith(UnityVersionLabel, w, i, g.lo, g.hi)
  {
    var k := SeparatorRunEnd(w, i + |UNITY_VERSION|);
    FullVersionFound(w, k);
  }

  /** Any label match has the scanner's group start and ends no later than the scanner's group. */
  lemma LabelBound(w: seq<byte>, i: nat, lo: nat, hi: nat)
    requires i <= |w| && MatchesWith(UnityVersionLabel, w, i, lo, hi)
    ensures MatchAt(UnityVersionLabel, w, i).Some?
    ensures lo == MatchAt(UnityVersionLabel, w, i).value.group.lo
    ensures hi <= MatchAt(UnityVersionLabel, w, i).value.group.hi
  {
    var s := i + |UNITY_VERSION|;
    assert MatchesFolded(w, i, UNITY_VERSION) && Separators(w, s, lo) && IsFullVersion(w, lo, hi);
    var a: nat, b: nat, c: nat :| TripleSplit(w, lo, a, b, c) && IsSuffix(w, c, hi);
    assert IsDigit(w[lo]);
    SeparatorRunEndIs(w, s, lo);
    FullVersionBound(w, lo, a, b, c, hi);
    var e := SuffixEnd(w, TripleEnd(w, lo).value);
    assert MatchAt(UnityVersionLabel, w, i) == Some(Match(Span(lo, e), e));
  }

  lemma UnityVersionLabelSpec(w: seq<byte>, i: nat)
    requires i <= |w|
    ensures var r := MatchAt(UnityVersionLabel, w, i);
      && (r.Some? ==> MatchesWith(UnityVersionLabel, w, i, r.value.group.lo, r.value.group.hi))
      && forall lo: nat, hi: nat :: MatchesWith(UnityVersionLabel, w, i, lo, hi) ==>
           r.Some? && lo == r.value.group.lo && hi <= r.value.group.hi
  {
    if MatchAt(UnityVersionLabel, w, i).Some? {
      LabelFound(w, i);
    }
    forall lo: nat, hi: nat | MatchesWith(UnityVersionLabel, w, i, lo, hi)
      ensures MatchAt(UnityVersionLabel, w, i).Some?
      ensures lo == MatchAt(UnityVersionLabel, w, i).value.group.lo
      ensures hi <= MatchAt(UnityVersionLabel, w, i).value.group.hi
    {
      LabelBound(w, i, lo, hi);
    }
  }

  /**
   * At each offset, the scanner returns a match exactly when the pattern
   * matches there; its group, which ends the match, starts where every
   * match's group starts and is the longest of them, which is the one a
   * backtracking engine with greedy quantifiers reports.
   */
  lemma MatchAtSpec(p: Pattern, w: seq<byte>, i: nat)
    requires i <= |w|
    ensures var r := MatchAt(p, w, i);
      && (r.Some? ==> MatchesWith(p, w, i, r.value.group.lo, r.value.group.hi) && r.value.end == r.value.group.hi)
      && forall lo: nat, hi: nat :: MatchesWith(p, w, i, lo, hi) ==>
           r.Some? && lo == r.value.group.lo && hi <= r.value.group.hi
  {
    match p
    case BareVersion => BareVersionSpec(w, i);
    case UnityPrefixed => UnityPrefixedSpec(w, i);
    case UnityVersionLabel => UnityVersionLabelSpec(w, i);
  }

  // findall

  /** The match of `p` at every offset of `w`, end included: `MatchTable(p, w)[i] == MatchAt(p, w, i)`. */
  ghost function MatchTable(p: Pattern, w: seq<byte>): (ms: seq<Option<Match>>)
    ensures |ms| == |w| + 1
  {
    seq(|w| + 1, i requires 0 <= i <= |w| => MatchAt(p, w, i))
  }

  /** Where the search for the `j`-th match resumes: the start offset, or the end of the previous match. */
  function Resume(pos: nat, r: seq<Span>, j: nat): nat
    requires j <= |r|
  {
    if j == 0 then pos else r[j - 1].hi
  }

  /** Where the `j`-th match starts, or the end `n` of the bytes after the last one. */
  function Stop(n: nat, starts: seq<nat>, j: nat): nat
    requires j <= |starts|
  {
    if j < |starts| then starts[j] else n
  }

  /** No offset in `[a, b)` has a match in the table. */
  predicate NoneIn(ms: seq<Option<Match>>, a: nat, b: nat)
  {
    forall i :: a <= i < b && i < |ms| ==> ms[i].None?
  }

  /**
   * `r` are the captures of the leftmost non-overlapping matches recorded in
   * `ms` from `pos` on: the `j`-th match starts at `starts[j]` and captures
   * `r[j]`, which also ends it, and no match starts between where the
   * search resumes and the next match, nor after the last one.
   */
  predicate Leftmost(ms: seq<Option<Match>>, pos: nat, starts: seq<nat>, r: seq<Span>)
    requires |ms| > 0
  {
    && |starts| == |r|
    && (forall j :: 0 <= j < |starts| ==>
          pos <= starts[j] < |ms| - 1 && ms[starts[j]] == Some(Match(r[j], r[j].hi)))
    && (forall j :: 0 <= j <= |r| ==>
          Resume(pos, r, j) <= Stop(|ms| - 1, starts, j) && NoneIn(ms, Resume(pos, r, j), Stop(|ms| - 1, starts, j)))
  }

  /** The same, for the matches of pattern `p` in `w`. */
  ghost predicate LeftmostMatches(p: Pattern, w: seq<byte>, pos: nat, starts: seq<nat>, r: seq<Span>)
  {
    Leftmost(MatchTable(p, w), pos, starts, r)
  }

  /** Every match ends with its group. */
  lemma MatchEndsWithGroup(p: Pattern, w: seq<byte>, i: nat)
    requires i <= |w| && MatchAt(p, w, i).Some?
    ensures MatchAt(p, w, i).value.end == MatchAt(p, w, i).value.group.hi
  {
  }

  /** No match at `pos` leaves the matches from `pos + 1` on. */
  lemma LeftmostSkip(ms: seq<Option<Match>>, pos: nat, starts: seq<nat>, r: seq<Span>)
    requires pos < |ms| - 1 && ms[pos].None?
    requires Leftmost(ms, pos + 1, starts, r)
    ensures Leftmost(ms, pos, starts, r)
  {
    var n := |ms| - 1;
    forall j | 0 <= j <= |r|
      ensures Resume(pos, r, j) <= Stop(n, starts, j) && NoneIn(ms, Resume(pos, r, j), Stop(n, starts, j))
    {
      if j == 0 {
        assert Resume(pos + 1, r, 0) == pos + 1;
      } else {
        assert Resume(pos, r, j) == Resume(pos + 1, r, j);
      }
    }
  }

  /** A match at `pos`, followed by the matches from its end on. */
  lemma LeftmostCons(ms: seq<Option<Match>>, pos: nat, g: Span, starts: seq<nat>, r: seq<Span>)
    requires pos < |ms| - 1 && ms[pos] == Some(Match(g, g.hi)) && pos < g.hi
    requires Leftmost(ms, g.hi, starts, r)
    ensures Leftmost(ms, pos, [pos] + starts, [g] + r)
  {
    var n := |ms| - 1;
    var starts' := [pos] + starts;
    var r' := [g] + r;
    forall j | 0 <= j < |starts'|
      ensures pos <= starts'[j] < n && ms[starts'[j]] == Some(Match(r'[j], r'[j].hi))
    {
      if j > 0 {
        assert starts'[j] == starts[j - 1] && r'[j] == r[j - 1];
      }
    }
    forall j | 0 <= j <= |r'|
      ensures Resume(pos, r', j) <= Stop(n, starts', j) && NoneIn(ms, Resume(pos, r', j), Stop(n, starts', j))
    {
      if j > 0 {
        assert Resume(pos, r', j) == Resume(g.hi, r, j - 1);
        assert Stop(n, starts', j) == Stop(n, starts, j - 1);
      }
    }
  }

  lemma {:induction false} FindAllLeftmost(p: Pattern, w: seq<byte>, pos: nat) returns (starts: seq<nat>)
    requires pos <= |w|
    ensures LeftmostMatches(p, w, pos, starts, FindAll(p, w, pos))
    decreases |w| - pos
  {
    var ms := MatchTable(p, w);
    if pos == |w| {
      starts := [];
      assert FindAll(p, w, pos) == [];
    } else if MatchAt(p, w, pos).None? {
      var next: nat := pos + 1;
      assert FindAll(p, w, pos) == FindAll(p, w, next);
      starts := FindAllLeftmost(p, w, next);
      assert ms[pos] == MatchAt(p, w, pos);
      LeftmostSkip(ms, pos, starts, FindAll(p, w, next));
    } else {
      var m := MatchAt(p, w, pos).value;
      MatchEndsWithGroup(p, w, pos);
      var rest := FindAllLeftmost(p, w, m.end);
      assert FindAll(p, w, pos) == [m.group] + FindAll(p, w, m.end);
      assert ms[pos] == MatchAt(p, w, pos);
      LeftmostCons(ms, pos, m.group, rest, FindAll(p, w, m.end));
      starts := [pos] + rest;
    }
  }

  /**
   * `findall` returns the captures of the leftmost non-overlapping matches
   * from `pos` on, in order, each search resuming where the previous match
   * ended.
   */
  lemma FindAllSpec(p: Pattern, w: seq<byte>, pos: nat)
    requires pos <= |w|
    ensures exists starts :: LeftmostMatches(p, w, pos, starts, FindAll(p, w, pos))
  {
    var starts := FindAllLeftmost(p, w, pos);
  }
}
