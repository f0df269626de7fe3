/**
 * The search for a Unity version string in the raw bytes of one archive
 * entry. Three tiers are tried in order and the first valid string wins:
 *
 *   1. anchored: the windows around the first ten offsets of `Unity`;
 *   2. bulk: the first 500000 bytes;
 *   3. lexical: printable runs starting at `20`, `5.`, `4.` or `3.`.
 *
 * The functions specify each tier; `FindVersionInData` is the step-by-step
 * search, proved to compute `FindVersion`.
 */
module Search {

  import opened Wrappers
  import opened Bytes
  import opened Validation
  import opened Patterns

  /** How many `Unity` offsets the anchored tier looks at. */
  const MAX_ANCHORS := 10
  /** The anchored window: 50 bytes before the offset, 200 from it. */
  const WINDOW_BEFORE := 50
  const WINDOW_AFTER := 200
  /** The bulk tier reads below this offset; the lexical tier starts no run after it. */
  const SEARCH_LIMIT := 500000
  /** The lexical tier extends a run over at most this many bytes ... */
  const RUN_CAP := 30
  /** ... and keeps it only when it is longer than this. */
  const MIN_RUN := 5

  /** The byte strings `20`, `5.`, `4.`, `3.`, in the order the lexical tier tries them. */
  const VERSION_STARTS: seq<seq<byte>> := [[0x32, 0x30], [0x35, 0x2E], [0x34, 0x2E], [0x33, 0x2E]]

  lemma VersionSpanAscii(w: seq<byte>, g: Span)
    requires IsVersionSpan(w, g)
    ensures IsAscii(w[g.lo..g.hi])
  {
    assert forall i :: 0 <= i < g.hi - g.lo ==> w[g.lo..g.hi][i] == w[g.lo + i];
  }

  /** The decoded captured group. */
  function Captured(w: seq<byte>, g: Span): string
    requires IsVersionSpan(w, g)
  {
    VersionSpanAscii(w, g);
    Decode(w[g.lo..g.hi])
  }

  predicate AllVersionSpans(w: seq<byte>, gs: seq<Span>)
  {
    forall j :: 0 <= j < |gs| ==> IsVersionSpan(w, gs[j])
  }

  /** The first capture, in order, whose decoding is a valid version. */
  function FirstValid(w: seq<byte>, gs: seq<Span>): Option<string>
    requires AllVersionSpans(w, gs)
  {
    if gs == [] then None
    else if IsValidUnityVersion(Captured(w, gs[0])) then Some(Captured(w, gs[0]))
    else FirstValid(w, gs[1..])
  }

  /** Each pattern in turn over the whole of `w`; the first valid capture wins. */
  function SearchPatterns(w: seq<byte>, ps: seq<Pattern>): Option<string>
  {
    if ps == [] then None
    else
      match FirstValid(w, FindAll(ps[0], w, 0))
      case Some(v) => Some(v)
      case None => SearchPatterns(w, ps[1..])
  }

  function SearchBuffer(w: seq<byte>): Option<string>
  {
    SearchPatterns(w, VERSION_PATTERNS)
  }

  /** `max(0, idx - 50)` */
  function WindowStart(idx: nat): nat
  {
    if idx >= WINDOW_BEFORE then idx - WINDOW_BEFORE else 0
  }

  /** `min(len(data), idx + 200)` */
  function WindowEnd(data: seq<byte>, idx: nat): nat
  {
    if idx + WINDOW_AFTER <= |data| then idx + WINDOW_AFTER else |data|
  }

  predicate InRange(data: seq<byte>, idxs: seq<nat>)
  {
    forall j :: 0 <= j < |idxs| ==> idxs[j] <= |data|
  }

  /** The window around each offset in turn. */
  function AnchoredSearch(data: seq<byte>, idxs: seq<nat>): Option<string>
    requires InRange(data, idxs)
  {
    if idxs == [] then None
    else
      match SearchBuffer(data[WindowStart(idxs[0])..WindowEnd(data, idxs[0])])
      case Some(v) => Some(v)
      case None => AnchoredSearch(data, idxs[1..])
  }

  /** `unity_indices[:10]`: the first ten offsets of `Unity`. */
  function Anchors(data: seq<byte>): seq<nat>
  {
    var occ := Occurrences(data, UNITY_MARKER, 0);
    occ[..if |occ| < MAX_ANCHORS then |occ| else MAX_ANCHORS]
  }

  lemma AnchorsInRange(data: seq<byte>)
    ensures InRange(data, Anchors(data))
  {
    OccurrencesSpec(data, UNITY_MARKER, 0);
  }

  function AnchoredTier(data: seq<byte>): Option<string>
  {
    AnchorsInRange(data);
    AnchoredSearch(data, Anchors(data))
  }

  /** `data[:500000]` */
  function Head(data: seq<byte>): seq<byte>
  {
    data[..if |data| < SEARCH_LIMIT then |data| else SEARCH_LIMIT]
  }

  function BulkTier(data: seq<byte>): Option<string>
  {
    SearchBuffer(Head(data))
  }

  /** `min(k + 30, len(data))` */
  function RunLimit(data: seq<byte>, k: nat): nat
  {
    if k + RUN_CAP < |data| then k + RUN_CAP else |data|
  }

  /** The end of the printable run from `i`, stopping at `limit`. */
  function PrintableRunEnd(data: seq<byte>, i: nat, limit: nat): (e: nat)
    requires i <= limit <= |data|
    ensures i <= e <= limit
    ensures forall k :: i <= k < e ==> IsPrintable(data[k])
    ensures e == limit || !IsPrintable(data[e])
    decreases limit - i
  {
    if i < limit && IsPrintable(data[i]) then PrintableRunEnd(data, i + 1, limit) else i
  }

  lemma PrintableAscii(data: seq<byte>, i: nat, e: nat)
    requires i <= e <= |data|
    requires forall k :: i <= k < e ==> IsPrintable(data[k])
    ensures IsAscii(data[i..e])
  {
    assert forall j :: 0 <= j < e - i ==> data[i..e][j] == data[i + j];
  }

  /** The run at `k`, when it is longer than five bytes and valid. */
  function LexicalCandidate(data: seq<byte>, k: nat): Option<string>
    requires k <= |data|
  {
    var e := PrintableRunEnd(data, k, RunLimit(data, k));
    if e > k + MIN_RUN then
      PrintableAscii(data, k, e);
      var s := Decode(data[k..e]);
      if IsValidUnityVersion(s) then Some(s) else None
    else None
  }

  /** Every occurrence of `vs` from `from` on, up to the search limit. */
  function LexicalFrom(data: seq<byte>, vs: seq<byte>, from: nat): Option<string>
    requires |vs| > 0
    decreases |data| - from
  {
    var k := Find(data, vs, from);
    if k == -1 || k > SEARCH_LIMIT then None
    else
      match LexicalCandidate(data, k)
      case Some(s) => Some(s)
      case None => LexicalFrom(data, vs, k + 1)
  }

  predicate NonEmptyNeedles(vss: seq<seq<byte>>)
  {
    forall j :: 0 <= j < |vss| ==> |vss[j]| > 0
  }

  /** Each start token in turn. */
  function LexicalStarts(data: seq<byte>, vss: seq<seq<byte>>): Option<string>
    requires NonEmptyNeedles(vss)
  {
    if vss == [] then None
    else
      match LexicalFrom(data, vss[0], 0)
      case Some(s) => Some(s)
      case None => LexicalStarts(data, vss[1..])
  }

  function LexicalTier(data: seq<byte>): Option<string>
  {
    LexicalStarts(data, VERSION_STARTS)
  }

  /** The three tiers in order; the first that finds a valid string decides. */
  function FindVersion(data: seq<byte>): (r: Option<string>)
    ensures r.Some? ==> IsValidUnityVersion(r.value)
  {
    AnchoredTierSound(data);
    BulkTierSound(data);
    LexicalTierSound(data);
    match AnchoredTier(data)
    case Some(v) => Some(v)
    case None =>
      match BulkTier(data)
      case Some(v) => Some(v)
      case None => LexicalTier(data)
  }

  /** Each pattern's `findall` over `chunk`, each capture decoded and validated in turn. */
  method SearchPatternsIn(chunk: seq<byte>) returns (version: Option<string>)
    ensures version == SearchBuffer(chunk)
  {
    for p := 0 to |VERSION_PATTERNS|
      invariant SearchPatterns(chunk, VERSION_PATTERNS[p..]) == SearchBuffer(chunk)
    {
      var matches := FindAll(VERSION_PATTERNS[p], chunk, 0);
      for m := 0 to |matches|
        invariant FirstValid(chunk, matches[m..]) == FirstValid(chunk, matches)
      {
        var candidate := Captured(chunk, matches[m]);
        if IsValidUnityVersion(candidate) {
          return Some(candidate);
        }
      }
    }
    return None;
  }

  /** `data.find(needle, idx)` repeated one past each hit until it fails. */
  method FindEach(data: seq<byte>, needle: seq<byte>) returns (indices: seq<nat>)
    requires |needle| > 0
    ensures indices == Occurrences(data, needle, 0)
  {
    indices := [];
    var idx: int := 0;
    while true
      invariant 0 <= idx <= |data|
      invariant Occurrences(data, needle, 0) == indices + Occurrences(data, needle, idx)
      decreases |data| - idx
    {
      ghost var from: nat := idx;
      idx := Find(data, needle, idx);
      if idx == -1 {
        assert Occurrences(data, needle, from) == [];
        assert indices + [] == indices;
        break;
      }
      OccurrencesStep(data, needle, indices, from);
      indices := indices + [idx];
      idx := idx + 1;
    }
  }

  /** One call of `find`: a hit is appended to the list and the search resumes one past it. */
  lemma OccurrencesStep(data: seq<byte>, needle: seq<byte>, indices: seq<nat>, from: nat)
    requires |needle| > 0 && Find(data, needle, from) != -1
    ensures Find(data, needle, from) < |data|
    ensures indices + Occurrences(data, needle, from) ==
      (indices + [Find(data, needle, from)]) + Occurrences(data, needle, Find(data, needle, from) + 1)
  {
    var k := Find(data, needle, from);
    OccurrencesUnfold(data, needle, from);
    AppendAssoc(indices, [k], Occurrences(data, needle, k + 1));
  }

  /** A hit of `find` heads the list of occurrences. */
  lemma OccurrencesUnfold(data: seq<byte>, needle: seq<byte>, from: nat)
    requires |needle| > 0 && Find(data, needle, from) != -1
    ensures Occurrences(data, needle, from) == [Find(data, needle, from)] + Occurrences(data, needle, Find(data, needle, from) + 1)
  {
  }

  lemma AppendAssoc<T>(a: seq<T>, b: seq<T>, c: seq<T>)
    ensures a + (b + c) == (a + b) + c
  {
  }


  /** The printable run from `idx`: grow the end while the next byte is printable. */
  method RunEnd(data: seq<byte>, idx: nat, limit: nat) returns (endIdx: nat)
    requires idx <= limit <= |data|
    ensures endIdx == PrintableRunEnd(data, idx, limit)
  {
    endIdx := idx;
    while endIdx < limit
      invariant idx <= endIdx <= limit
      invariant PrintableRunEnd(data, idx, limit) == PrintableRunEnd(data, endIdx, limit)
    {
      if data[endIdx] == 0 || data[endIdx] < 32 || data[endIdx] > 126 {
        break;
      }
      endIdx := endIdx + 1;
    }
  }

  /** The run at `idx`, decoded, when it is longer than five bytes and passes the validator. */
  method RunCandidate(data: seq<byte>, idx: nat) returns (candidate: Option<string>)
    requires idx <= |data|
    ensures candidate == LexicalCandidate(data, idx)
  {
    var endIdx := RunEnd(data, idx, RunLimit(data, idx));
    if endIdx > idx + MIN_RUN {
      PrintableAscii(data, idx, endIdx);
      var potential := Decode(data[idx..endIdx]);
      if IsValidUnityVersion(potential) {
        return Some(potential);
      }
    }
    return None;
  }

  /** Every occurrence of one start token at or below the search limit, in offset order. */
  method ScanStart(data: seq<byte>, vs: seq<byte>) returns (version: Option<string>)
    requires |vs| > 0
    ensures version == LexicalFrom(data, vs, 0)
  {
    var idx: int := 0;
    while true
      invariant 0 <= idx <= |data|
      invariant LexicalFrom(data, vs, idx) == LexicalFrom(data, vs, 0)
      decreases |data| - idx
    {
      ghost var from := idx;
      idx := Find(data, vs, idx);
      if idx == -1 || idx > SEARCH_LIMIT {
        LexicalFromEnds(data, vs, from);
        break;
      }
      var candidate := RunCandidate(data, idx);
      if candidate.Some? {
        LexicalFromTakes(data, vs, from);
        return candidate;
      }
      LexicalFromSkips(data, vs, from);
      idx := idx + 1;
    }
    return None;
  }

  /** Tier 3: each start token in turn. */
  method LexicalScan(data: seq<byte>) returns (version: Option<string>)
    ensures version == LexicalTier(data)
  {
    for v := 0 to |VERSION_STARTS|
      invariant LexicalStarts(data, VERSION_STARTS[v..]) == LexicalTier(data)
    {
      version := ScanStart(data, VERSION_STARTS[v]);
      if version.Some? {
        return;
      }
    }
    return None;
  }

  /** The whole search over one entry's bytes. */
  method FindVersionInData(data: seq<byte>) returns (version: Option<string>)
    ensures version == FindVersion(data)
  {
    var unityIndices := FindEach(data, UNITY_MARKER);
    var anchors := unityIndices[..if |unityIndices| < MAX_ANCHORS then |unityIndices| else MAX_ANCHORS];
    assert anchors == Anchors(data);
    AnchorsInRange(data);
    for i := 0 to |anchors|
      invariant InRange(data, anchors[i..])
      invariant AnchoredSearch(data, anchors[i..]) == AnchoredTier(data)
    {
      AnchoredSearchStep(data, anchors, i);
      version := SearchPatternsIn(data[WindowStart(anchors[i])..WindowEnd(data, anchors[i])]);
      if version.Some? {
        return;
      }
    }
    version := SearchPatternsIn(Head(data));
    if version.Some? {
      return;
    }
    version := LexicalScan(data);
  }

  /** One anchor's window either decides the search or hands over to the next anchor. */
  lemma AnchoredSearchStep(data: seq<byte>, idxs: seq<nat>, i: nat)
    requires InRange(data, idxs) && i < |idxs|
    ensures InRange(data, idxs[i..]) && InRange(data, idxs[i + 1..])
    ensures AnchoredSearch(data, idxs[i..]) ==
      match SearchBuffer(data[WindowStart(idxs[i])..WindowEnd(data, idxs[i])])
      case Some(v) => Some(v)
      case None => AnchoredSearch(data, idxs[i + 1..])
  {
    assert idxs[i..][0] == idxs[i];
    assert idxs[i..][1..] == idxs[i + 1..];
  }

  // Soundness and bounds of each tier

  /** Some span of `data` inside `[from, to)` is the ASCII spelling of `s`. */
  predicate SpelledWithin(data: seq<byte>, from: nat, to: nat, s: string)
  {
    to <= |data| && exists lo, hi :: from <= lo <= hi <= to && Spells(data[lo..hi], s)
  }

  lemma ShiftSpelled(data: seq<byte>, a: nat, b: nat, x: nat, y: nat, s: string)
    requires a <= b <= |data|
    requires SpelledWithin(data[a..b], x, y, s)
    ensures SpelledWithin(data, a + x, a + y, s)
  {
    var lo, hi :| x <= lo <= hi <= y && Spells(data[a..b][lo..hi], s);
    SliceOfSlice(data, a, b, lo, hi);
  }

  lemma WidenSpelled(data: seq<byte>, from: nat, to: nat, s: string)
    requires SpelledWithin(data, from, to, s)
    ensures SpelledWithin(data, 0, |data|, s)
  {
  }

  lemma {:induction false} FirstValidSound(w: seq<byte>, gs: seq<Span>)
    requires AllVersionSpans(w, gs)
    ensures FirstValid(w, gs).Some? ==>
      IsValidUnityVersion(FirstValid(w, gs).value) && SpelledWithin(w, 0, |w|, FirstValid(w, gs).value)
  {
    if gs != [] {
      var g := gs[0];
      VersionSpanAscii(w, g);
      if IsValidUnityVersion(Captured(w, g)) {
        DecodeSpells(w[g.lo..g.hi]);
        assert Spells(w[g.lo..g.hi], Captured(w, g));
      } else {
        FirstValidSound(w, gs[1..]);
      }
    }
  }

  /** Whatever the patterns find in a buffer is valid and spelled by bytes of that buffer. */
  lemma {:induction false} SearchPatternsSound(w: seq<byte>, ps: seq<Pattern>)
    ensures SearchPatterns(w, ps).Some? ==>
      IsValidUnityVersion(SearchPatterns(w, ps).value) && SpelledWithin(w, 0, |w|, SearchPatterns(w, ps).value)
  {
    if ps != [] {
      FirstValidSound(w, FindAll(ps[0], w, 0));
      SearchPatternsSound(w, ps[1..]);
    }
  }

  lemma {:induction false} AnchoredSearchSound(data: seq<byte>, idxs: seq<nat>)
    requires InRange(data, idxs)
    ensures AnchoredSearch(data, idxs).Some? ==>
      var s := AnchoredSearch(data, idxs).value;
      IsValidUnityVersion(s) &&
      exists j :: 0 <= j < |idxs| && SpelledWithin(data, WindowStart(idxs[j]), WindowEnd(data, idxs[j]), s)
  {
    if idxs != [] {
      var a, b := WindowStart(idxs[0]), WindowEnd(data, idxs[0]);
      var found := SearchBuffer(data[a..b]);
      if found.Some? {
        SearchPatternsSound(data[a..b], VERSION_PATTERNS);
        ShiftSpelled(data, a, b, 0, b - a, found.value);
        assert SpelledWithin(data, WindowStart(idxs[0]), WindowEnd(data, idxs[0]), found.value);
      } else {
        AnchoredSearchSound(data, idxs[1..]);
        if AnchoredSearch(data, idxs).Some? {
          var j :| 0 <= j < |idxs[1..]| &&
            SpelledWithin(data, WindowStart(idxs[1..][j]), WindowEnd(data, idxs[1..][j]), AnchoredSearch(data, idxs).value);
          assert idxs[1..][j] == idxs[j + 1];
        }
      }
    }
  }

  /**
   * The anchors are the first ten offsets of `Unity` (all of them when there
   * are fewer), in ascending order: an offset left out lies after all ten.
   */
  lemma AnchorsAreFirstTen(data: seq<byte>)
    ensures var r := Anchors(data);
      && |r| <= MAX_ANCHORS
      && (forall j :: 0 <= j < |r| ==> OccursAt(data, UNITY_MARKER, r[j]))
      && (forall j, l :: 0 <= j < l < |r| ==> r[j] < r[l])
      && (forall k :: OccursAt(data, UNITY_MARKER, k) && k !in r ==>
            |r| == MAX_ANCHORS && forall j :: 0 <= j < |r| ==> r[j] < k)
  {
    var occ := Occurrences(data, UNITY_MARKER, 0);
    OccurrencesSpec(data, UNITY_MARKER, 0);
    var r := Anchors(data);
    forall k | OccursAt(data, UNITY_MARKER, k) && k !in r
      ensures |r| == MAX_ANCHORS && forall j :: 0 <= j < |r| ==> r[j] < k
    {
      var i :| 0 <= i < |occ| && occ[i] == k;
      assert i >= |r|;
    }
  }

  /**
   * Tier 1 returns a valid version spelled by bytes inside the window
   * `[max(0, idx - 50), min(len, idx + 200))` of one of the first ten offsets of `Unity`.
   */
  lemma AnchoredTierSound(data: seq<byte>)
    ensures AnchoredTier(data).Some? ==>
      var s := AnchoredTier(data).value;
      IsValidUnityVersion(s) &&
      exists j :: 0 <= j < |Anchors(data)| &&
        SpelledWithin(data, WindowStart(Anchors(data)[j]), WindowEnd(data, Anchors(data)[j]), s)
  {
    AnchorsInRange(data);
    AnchoredSearchSound(data, Anchors(data));
  }

  /** Tier 2 returns a valid version spelled by bytes below offset 500000. */
  lemma BulkTierSound(data: seq<byte>)
    ensures BulkTier(data).Some? ==>
      IsValidUnityVersion(BulkTier(data).value) &&
      SpelledWithin(data, 0, |Head(data)|, BulkTier(data).value)
      && |Head(data)| <= SEARCH_LIMIT
  {
    var h := Head(data);
    SearchPatternsSound(h, VERSION_PATTERNS);
    if BulkTier(data).Some? {
      ShiftSpelled(data, 0, |h|, 0, |h|, BulkTier(data).value);
    }
  }

  /**
   * The run `data[k..e]` the lexical tier may return: longer than five bytes,
   * within the 30-byte cap, all printable, and maximal under that cap.
   */
  predicate IsLexicalRun(data: seq<byte>, k: nat, e: nat)
  {
    k + MIN_RUN < e <= RunLimit(data, k) && RunLimit(data, k) <= |data|
    && (forall i :: k <= i < e ==> IsPrintable(data[i]))
    && (e == RunLimit(data, k) || !IsPrintable(data[e]))
  }

  /** `s` is the lexical run at `k`: starting at a token occurrence no later than the limit. */
  predicate LexicalHit(data: seq<byte>, vs: seq<byte>, k: nat, s: string)
  {
    k <= SEARCH_LIMIT && OccursAt(data, vs, k) && IsLexicalRun(data, k, k + |s|)
    && Spells(data[k..k + |s|], s)
  }

  lemma LexicalCandidateSound(data: seq<byte>, k: nat)
    requires k <= |data|
    ensures LexicalCandidate(data, k).Some? ==>
      var s := LexicalCandidate(data, k).value;
      IsValidUnityVersion(s) && k + |s| <= |data| && IsLexicalRun(data, k, k + |s|) && Spells(data[k..k + |s|], s)
  {
    var e := PrintableRunEnd(data, k, RunLimit(data, k));
    if e > k + MIN_RUN {
      PrintableAscii(data, k, e);
      DecodeSpells(data[k..e]);
    }
  }

  /** A result of the scan from `from`: a valid run found at a token occurrence at or after `from`. */
  ghost predicate LexicalFound(data: seq<byte>, vs: seq<byte>, from: nat, r: Option<string>)
  {
    r.Some? ==> IsValidUnityVersion(r.value) && exists k :: from <= k && LexicalHit(data, vs, k, r.value)
  }

  lemma {:induction false} LexicalFromSound(data: seq<byte>, vs: seq<byte>, from: nat)
    requires |vs| > 0
    ensures LexicalFound(data, vs, from, LexicalFrom(data, vs, from))
    decreases |data| - from
  {
    var k := Find(data, vs, from);
    if k == -1 || k > SEARCH_LIMIT {
      assert LexicalFrom(data, vs, from) == None;
    } else if LexicalCandidate(data, k).None? {
      var next: nat := k + 1;
      LexicalFromSkips(data, vs, from);
      LexicalFromSound(data, vs, next);
      LexicalFoundWiden(data, vs, from, next, LexicalFrom(data, vs, next));
    } else {
      LexicalFromStops(data, vs, from);
    }
  }

  lemma LexicalFoundWiden(data: seq<byte>, vs: seq<byte>, from: nat, next: nat, r: Option<string>)
    requires from <= next && LexicalFound(data, vs, next, r)
    ensures LexicalFound(data, vs, from, r)
  {
    if r.Some? {
      var k :| next <= k && LexicalHit(data, vs, k, r.value);
      assert from <= k;
    }
  }

  /** No further token occurrence at or below the limit ends the scan empty-handed. */
  lemma LexicalFromEnds(data: seq<byte>, vs: seq<byte>, from: nat)
    requires |vs| > 0
    requires Find(data, vs, from) == -1 || Find(data, vs, from) > SEARCH_LIMIT
    ensures LexicalFrom(data, vs, from) == None
  {
  }

  /** A token occurrence with no candidate run sends the scan on to the next occurrence. */
  lemma LexicalFromSkips(data: seq<byte>, vs: seq<byte>, from: nat)
    requires |vs| > 0
    requires Find(data, vs, from) != -1 && Find(data, vs, from) <= SEARCH_LIMIT
    requires LexicalCandidate(data, Find(data, vs, from)).None?
    ensures LexicalFrom(data, vs, from) == LexicalFrom(data, vs, Find(data, vs, from) + 1)
  {
  }

  /** A token occurrence with a candidate run ends the scan with that run. */
  lemma LexicalFromTakes(data: seq<byte>, vs: seq<byte>, from: nat)
    requires |vs| > 0
    requires Find(data, vs, from) != -1 && Find(data, vs, from) <= SEARCH_LIMIT
    requires LexicalCandidate(data, Find(data, vs, from)).Some?
    ensures LexicalFrom(data, vs, from) == LexicalCandidate(data, Find(data, vs, from))
  {
  }

  /** The run it ends with is valid and sits at that occurrence. */
  lemma LexicalFromStops(data: seq<byte>, vs: seq<byte>, from: nat)
    requires |vs| > 0
    requires Find(data, vs, from) != -1 && Find(data, vs, from) <= SEARCH_LIMIT
    requires LexicalCandidate(data, Find(data, vs, from)).Some?
    ensures LexicalFound(data, vs, from, LexicalFrom(data, vs, from))
  {
    var k := Find(data, vs, from);
    FindSpec(data, vs, from);
    LexicalCandidateSound(data, k);
    LexicalFromTakes(data, vs, from);
    assert LexicalHit(data, vs, k, LexicalCandidate(data, k).value);
  }

  lemma {:induction false} LexicalStartsSound(data: seq<byte>, vss: seq<seq<byte>>)
    requires NonEmptyNeedles(vss)
    ensures LexicalStarts(data, vss).Some? ==>
      var s := LexicalStarts(data, vss).value;
      IsValidUnityVersion(s) && exists j, k :: 0 <= j < |vss| && LexicalHit(data, vss[j], k, s)
  {
    if vss != [] {
      LexicalFromSound(data, vss[0], 0);
      if LexicalFrom(data, vss[0], 0).Some? {
        var k :| 0 <= k && LexicalHit(data, vss[0], k, LexicalFrom(data, vss[0], 0).value);
      } else {
        LexicalStartsSound(data, vss[1..]);
        if LexicalStarts(data, vss).Some? {
          var j, k :| 0 <= j < |vss[1..]| && LexicalHit(data, vss[1..][j], k, LexicalStarts(data, vss).value);
          assert vss[1..][j] == vss[j + 1];
        }
      }
    }
  }

  /**
   * Tier 3 returns a valid version that is a maximal printable run, capped at
   * 30 bytes, starting at an occurrence of `20`, `5.`, `4.` or `3.` at an
   * offset no greater than 500000; being longer than five bytes, it is never
   * a bare `X.Y.Z` like `5.6.4`.
   */
  lemma LexicalTierSound(data: seq<byte>)
    ensures LexicalTier(data).Some? ==>
      var s := LexicalTier(data).value;
      IsValidUnityVersion(s) && MIN_RUN < |s| <= MAX_LENGTH &&
      exists j, k :: 0 <= j < |VERSION_STARTS| && LexicalHit(data, VERSION_STARTS[j], k, s)
  {
    LexicalStartsSound(data, VERSION_STARTS);
    if LexicalTier(data).Some? {
      var s := LexicalTier(data).value;
      var j: nat, k: nat :| j < |VERSION_STARTS| && LexicalHit(data, VERSION_STARTS[j], k, s);
    }
  }

  /**
   * Whatever the search returns is a valid Unity version and occurs as a
   * contiguous run of bytes of the entry.
   */
  lemma FindVersionSound(data: seq<byte>)
    ensures FindVersion(data).Some? ==>
      IsValidUnityVersion(FindVersion(data).value) && SpelledWithin(data, 0, |data|, FindVersion(data).value)
  {
    var r := FindVersion(data);
    if AnchoredTier(data).Some? {
      assert r == AnchoredTier(data);
      AnchoredTierSound(data);
      var s := r.value;
      var j :| 0 <= j < |Anchors(data)| &&
        SpelledWithin(data, WindowStart(Anchors(data)[j]), WindowEnd(data, Anchors(data)[j]), s);
      WidenSpelled(data, WindowStart(Anchors(data)[j]), WindowEnd(data, Anchors(data)[j]), s);
    } else if BulkTier(data).Some? {
      assert r == BulkTier(data);
      BulkTierSound(data);
      WidenSpelled(data, 0, |Head(data)|, r.value);
    } else {
      assert r == LexicalTier(data);
      if r.Some? {
        LexicalTierSound(data);
        var s := r.value;
        var j: nat, k: nat :| j < |VERSION_STARTS| && LexicalHit(data, VERSION_STARTS[j], k, s);
        assert Spells(data[k..k + |s|], s);
      }
    }
  }
}
