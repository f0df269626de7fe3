/**
 * The three fixed version patterns of the extractor, each written as a
 * deterministic scanner over bytes instead of a general regular-expression
 * engine, and `findall`: the leftmost non-overlapping captures of one pattern.
 *
 *   BareVersion        (\d+\.\d+\.\d+[a-zA-Z]?\d*)
 *   UnityPrefixed      Unity (\d+\.\d+\.\d+)                   case-insensitive
 *   UnityVersionLabel  unity version[:\s]+(\d+\.\d+\.\d+[a-zA-Z]?\d*)   case-insensitive
 *
 * Every `\d+` before a literal dot can only match the maximal digit run (a
 * shorter run leaves a digit where the dot is needed), `[:\s]+` before a digit
 * likewise, and the optional tail never has to give anything back, so the
 * greedy scan below finds the one match a backtracking engine finds.
 */
module Patterns {

  import opened Wrappers
  import opened Bytes

  datatype Pattern = BareVersion | UnityPrefixed | UnityVersionLabel

  /** The patterns in the order the search tries them. */
  const VERSION_PATTERNS: seq<Pattern> := [BareVersion, UnityPrefixed, UnityVersionLabel]

  /** `unity ` and `unity version` in lower case, compared after ASCII case folding. */
  const UNITY_SPACE: seq<byte> := [0x75, 0x6E, 0x69, 0x74, 0x79, 0x20]
  const UNITY_VERSION: seq<byte> :=
    [0x75, 0x6E, 0x69, 0x74, 0x79, 0x20, 0x76, 0x65, 0x72, 0x73, 0x69, 0x6F, 0x6E]

  /** The captured group `w[lo..hi]`. */
  datatype Span = Span(lo: nat, hi: nat)

  /** A match: its captured group and the offset just past the whole match. */
  datatype Match = Match(group: Span, end: nat)

  predicate IsVersionByte(b: byte) { IsDigit(b) || IsLetter(b) || IsDot(b) }

  /** The span lies inside `w` and holds only digits, letters and dots. */
  predicate IsVersionSpan(w: seq<byte>, g: Span)
  {
    g.lo <= g.hi <= |w| && forall k :: g.lo <= k < g.hi ==> IsVersionByte(w[k])
  }

  /**
   * The end of the maximal digit run starting at `i`. The patterns scan raw
   * bytes, before any decoding, so this runs over bytes; the validator's
   * run over characters is `Validation.DigitsEnd`.
   */
  function DigitRunEnd(w: seq<byte>, i: nat): (j: nat)
    requires i <= |w|
    ensures i <= j <= |w|
    ensures forall k :: i <= k < j ==> IsDigit(w[k])
    ensures j == |w| || !IsDigit(w[j])
    decreases |w| - i
  {
    if i < |w| && IsDigit(w[i]) then DigitRunEnd(w, i + 1) else i
  }

  /** The end of the maximal run of `:` and whitespace bytes starting at `i`. */
  function SeparatorRunEnd(w: seq<byte>, i: nat): (j: nat)
    requires i <= |w|
    ensures i <= j <= |w|
    ensures forall k :: i <= k < j ==> w[k] == 0x3A || IsSpace(w[k])
    ensures j == |w| || !(w[j] == 0x3A || IsSpace(w[j]))
    decreases |w| - i
  {
    if i < |w| && (w[i] == 0x3A || IsSpace(w[i])) then SeparatorRunEnd(w, i + 1) else i
  }

  /** `w[i..]` starts with the lower-case literal `lit`, ignoring ASCII case. */
  predicate MatchesFolded(w: seq<byte>, i: nat, lit: seq<byte>)
  {
    i + |lit| <= |w| && forall k :: 0 <= k < |lit| ==> Lower(w[i + k]) == lit[k]
  }

  /** `\d+\.\d+\.\d+` at `i`: the end of the third digit run, if it matches. */
  function TripleEnd(w: seq<byte>, i: nat): (r: Option<nat>)
    requires i <= |w|
    ensures r.Some? ==> i < r.value <= |w| && IsVersionSpan(w, Span(i, r.value))
    ensures r.Some? ==> IsDigit(w[i])
  {
    var a := DigitRunEnd(w, i);
    if a == i || a == |w| || !IsDot(w[a]) then None
    else
      var b := DigitRunEnd(w, a + 1);
      if b == a + 1 || b == |w| || !IsDot(w[b]) then None
      else
        var c := DigitRunEnd(w, b + 1);
        if c == b + 1 then None else Some(c)
  }

  /** `[a-zA-Z]?\d*` at `c`: both parts greedy. */
  function SuffixEnd(w: seq<byte>, c: nat): (e: nat)
    requires c <= |w|
    ensures c <= e <= |w| && IsVersionSpan(w, Span(c, e))
  {
    if c < |w| && IsLetter(w[c]) then DigitRunEnd(w, c + 1) else DigitRunEnd(w, c)
  }

  /** The match of pattern `p` that starts exactly at `i`, if any. */
  function MatchAt(p: Pattern, w: seq<byte>, i: nat): (r: Option<Match>)
    requires i <= |w|
    ensures r.Some? ==> i < r.value.end <= |w| && r.value.group.hi <= r.value.end
    ensures r.Some? ==> i <= r.value.group.lo < r.value.group.hi && IsVersionSpan(w, r.value.group)
    ensures r.Some? ==> IsDigit(w[r.value.group.lo])
    ensures r.Some? && p == UnityPrefixed ==>
      r.value.group.lo == i + |UNITY_SPACE| && MatchesFolded(w, i, UNITY_SPACE)
    ensures r.Some? && p == UnityVersionLabel ==>
      r.value.group.lo > i + |UNITY_VERSION| && MatchesFolded(w, i, UNITY_VERSION)
  {
    match p
    case BareVersion =>
      (match TripleEnd(w, i)
       case None => None
       case Some(c) =>
         var e := SuffixEnd(w, c);
         Some(Match(Span(i, e), e)))
    case UnityPrefixed =>
      if !MatchesFolded(w, i, UNITY_SPACE) then None
      else
        (match TripleEnd(w, i + |UNITY_SPACE|)
         case None => None
         case Some(c) => Some(Match(Span(i + |UNITY_SPACE|, c), c)))
    case UnityVersionLabel =>
      if !MatchesFolded(w, i, UNITY_VERSION) then None
      else
        var k := SeparatorRunEnd(w, i + |UNITY_VERSION|);
        if k == i + |UNITY_VERSION| then None
        else
          (match TripleEnd(w, k)
           case None => None
           case Some(c) =>
             var e := SuffixEnd(w, c);
             Some(Match(Span(k, e), e)))
  }

  /**
   * `re.findall(p, w[pos..])` for a pattern with one group: try each offset
   * from left to right; after a match, go on from its end.
   */
  function FindAll(p: Pattern, w: seq<byte>, pos: nat): (r: seq<Span>)
    requires pos <= |w|
    ensures forall j :: 0 <= j < |r| ==> pos <= r[j].lo && IsVersionSpan(w, r[j])
    ensures forall j, l :: 0 <= j < l < |r| ==> r[j].hi <= r[l].lo
    decreases |w| - pos
  {
    if pos == |w| then []
    else
      match MatchAt(p, w, pos)
      case Some(m) => [m.group] + FindAll(p, w, m.end)
      case None => FindAll(p, w, pos + 1)
  }

  /** Pattern `p` matches at no offset of `w` from `pos` on. */
  predicate NoMatchFrom(p: Pattern, w: seq<byte>, pos: nat)
  {
    forall i :: pos <= i < |w| ==> MatchAt(p, w, i).None?
  }

  /** `findall` comes back empty exactly when the pattern matches at no offset from `pos` on. */
  lemma {:induction false} FindAllEmpty(p: Pattern, w: seq<byte>, pos: nat)
    requires pos <= |w|
    ensures FindAll(p, w, pos) == [] <==> NoMatchFrom(p, w, pos)
    decreases |w| - pos
  {
    if pos == |w| {
      assert FindAll(p, w, pos) == [];
    } else if MatchAt(p, w, pos).None? {
      var next: nat := pos + 1;
      assert FindAll(p, w, pos) == FindAll(p, w, next);
      FindAllEmpty(p, w, next);
      NoMatchStep(p, w, pos);
    } else {
      assert FindAll(p, w, pos)[0] == MatchAt(p, w, pos).value.group;
      assert !NoMatchFrom(p, w, pos);
    }
  }

  lemma NoMatchStep(p: Pattern, w: seq<byte>, pos: nat)
    requires pos < |w| && MatchAt(p, w, pos).None?
    ensures NoMatchFrom(p, w, pos) <==> NoMatchFrom(p, w, pos + 1)
  {
    if NoMatchFrom(p, w, pos + 1) {
      forall i | pos <= i < |w|
        ensures MatchAt(p, w, i).None?
      {
        if i != pos {
          assert pos + 1 <= i;
        }
      }
    }
  }
}
