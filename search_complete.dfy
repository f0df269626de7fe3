/**
 * Completeness of the byte search: each tier, and the whole search, comes
 * back empty exactly when no candidate it inspects passes the validator.
 * Together with the soundness lemmas of `Search`, this pins each tier's
 * result down from both sides.
 */
module SearchCompleteness {

  import opened Wrappers
  import opened Bytes
  import opened Validation
  import opened Patterns
  import opened Search

  /** The capture `gs[j]` decodes to a valid version. */
  predicate ValidAt(w: seq<byte>, gs: seq<Span>, j: int)
  {
    0 <= j < |gs| && IsVersionSpan(w, gs[j]) && IsValidUnityVersion(Captured(w, gs[j]))
  }

  lemma AllVersionSpansTail(w: seq<byte>, gs: seq<Span>)
    requires gs != [] && AllVersionSpans(w, gs)
    ensures AllVersionSpans(w, gs[1..])
  {
    forall j | 0 <= j < |gs| - 1 ensures IsVersionSpan(w, gs[1..][j]) {
      assert gs[1..][j] == gs[j + 1];
    }
  }

  /** Whether a capture after the first is valid is the same question for the tail. */
  lemma ValidAtTail(w: seq<byte>, gs: seq<Span>, j: int)
    requires gs != [] && 0 < j
    ensures ValidAt(w, gs, j) == ValidAt(w, gs[1..], j - 1)
  {
    if j < |gs| {
      assert gs[j] == gs[1..][j - 1];
    }
  }

  /** `FirstValid` returns nothing exactly when no capture decodes to a valid version. */
  lemma {:induction false} FirstValidNone(w: seq<byte>, gs: seq<Span>)
    requires AllVersionSpans(w, gs)
    ensures FirstValid(w, gs).None? <==> forall j :: 0 <= j < |gs| ==> !ValidAt(w, gs, j)
    decreases |gs|
  {
    if gs != [] {
      var rest := gs[1..];
      AllVersionSpansTail(w, gs);
      FirstValidNone(w, rest);
      if ValidAt(w, gs, 0) {
        assert FirstValid(w, gs).Some?;
      } else {
        assert FirstValid(w, gs) == FirstValid(w, rest);
        if FirstValid(w, rest).None? {
          forall j | 0 < j < |gs| ensures !ValidAt(w, gs, j) {
            ValidAtTail(w, gs, j);
          }
        } else {
          var j :| 0 <= j < |rest| && ValidAt(w, rest, j);
          ValidAtTail(w, gs, j + 1);
        }
      }
    }
  }

  /** `FirstValid` returns the decoding of the first capture that decodes to a valid version. */
  lemma {:induction false} FirstValidFirst(w: seq<byte>, gs: seq<Span>)
    requires AllVersionSpans(w, gs)
    ensures FirstValid(w, gs).Some? ==>
      exists j :: ValidAt(w, gs, j) && FirstValid(w, gs).value == Captured(w, gs[j])
        && (forall l :: 0 <= l < j ==> !ValidAt(w, gs, l))
    decreases |gs|
  {
    if gs != [] {
      if ValidAt(w, gs, 0) {
        assert FirstValid(w, gs).value == Captured(w, gs[0]);
      } else if FirstValid(w, gs).Some? {
        var rest := gs[1..];
        AllVersionSpansTail(w, gs);
        FirstValidFirst(w, rest);
        var j :| ValidAt(w, rest, j) && FirstValid(w, rest).value == Captured(w, rest[j])
          && (forall l :: 0 <= l < j ==> !ValidAt(w, rest, l));
        ValidAtTail(w, gs, j + 1);
        assert gs[j + 1] == rest[j];
        forall l | 0 < l < j + 1 ensures !ValidAt(w, gs, l) {
          ValidAtTail(w, gs, l);
        }
      }
    }
  }

  /** Some capture of `p` over `w` decodes to a valid version. */
  ghost predicate HasValidCapture(w: seq<byte>, p: Pattern)
  {
    exists j :: ValidAt(w, FindAll(p, w, 0), j)
  }

  lemma FirstValidOfPattern(w: seq<byte>, p: Pattern)
    ensures FirstValid(w, FindAll(p, w, 0)).None? <==> !HasValidCapture(w, p)
  {
    FirstValidNone(w, FindAll(p, w, 0));
  }

  /** Trying the patterns in turn finds nothing exactly when none of them has a valid capture. */
  lemma {:induction false} SearchPatternsNone(w: seq<byte>, ps: seq<Pattern>)
    ensures SearchPatterns(w, ps).None? <==> forall p :: p in ps ==> !HasValidCapture(w, p)
    decreases |ps|
  {
    if ps != [] {
      FirstValidOfPattern(w, ps[0]);
      SearchPatternsNone(w, ps[1..]);
      assert ps == [ps[0]] + ps[1..];
    }
  }

  /** A pattern list's result is the first valid capture of the first pattern in the list that has one. */
  lemma {:induction false} SearchPatternsFirst(w: seq<byte>, ps: seq<Pattern>)
    ensures SearchPatterns(w, ps).Some? ==>
      exists j :: 0 <= j < |ps| && SearchPatterns(w, ps) == FirstValid(w, FindAll(ps[j], w, 0))
        && (forall l :: 0 <= l < j ==> FirstValid(w, FindAll(ps[l], w, 0)).None?)
    decreases |ps|
  {
    if ps != [] && FirstValid(w, FindAll(ps[0], w, 0)).None? && SearchPatterns(w, ps).Some? {
      var rest := ps[1..];
      SearchPatternsFirst(w, rest);
      var j :| 0 <= j < |rest| && SearchPatterns(w, rest) == FirstValid(w, FindAll(rest[j], w, 0))
        && (forall l :: 0 <= l < j ==> FirstValid(w, FindAll(rest[l], w, 0)).None?);
      assert ps[j + 1] == rest[j];
      forall l | 0 < l < j + 1 ensures FirstValid(w, FindAll(ps[l], w, 0)).None? {
        assert ps[l] == rest[l - 1];
      }
    }
  }

  /** A buffer yields nothing exactly when no pattern has a valid capture in it. */
  lemma SearchBufferNone(w: seq<byte>)
    ensures SearchBuffer(w).None? <==> forall p: Pattern :: !HasValidCapture(w, p)
  {
    SearchPatternsNone(w, VERSION_PATTERNS);
    forall p: Pattern ensures p in VERSION_PATTERNS {
      match p
      case BareVersion => assert VERSION_PATTERNS[0] == p;
      case UnityPrefixed => assert VERSION_PATTERNS[1] == p;
      case UnityVersionLabel => assert VERSION_PATTERNS[2] == p;
    }
  }

  /** The window of 50 bytes before and 200 bytes after an anchor. */
  function Window(data: seq<byte>, idx: nat): seq<byte>
    requires idx <= |data|
  {
    data[WindowStart(idx)..WindowEnd(data, idx)]
  }

  /** The windows in turn find nothing exactly when each window finds nothing. */
  lemma {:induction false} AnchoredSearchNone(data: seq<byte>, idxs: seq<nat>)
    requires InRange(data, idxs)
    ensures AnchoredSearch(data, idxs).None? <==>
      forall j :: 0 <= j < |idxs| ==> SearchBuffer(Window(data, idxs[j])).None?
    decreases |idxs|
  {
    if idxs != [] {
      var rest := idxs[1..];
      assert InRange(data, rest) by {
        forall j | 0 <= j < |rest| ensures rest[j] <= |data| {
          assert rest[j] == idxs[j + 1];
        }
      }
      AnchoredSearchNone(data, rest);
      if AnchoredSearch(data, idxs).None? {
        forall j | 0 <= j < |idxs| ensures SearchBuffer(Window(data, idxs[j])).None? {
          if j > 0 {
            assert idxs[j] == rest[j - 1];
          }
        }
      }
    }
  }

  /** The windows' result is the result of the first window, in anchor order, that yields anything. */
  lemma {:induction false} AnchoredSearchFirst(data: seq<byte>, idxs: seq<nat>)
    requires InRange(data, idxs)
    ensures AnchoredSearch(data, idxs).Some? ==>
      exists j :: 0 <= j < |idxs| && AnchoredSearch(data, idxs) == SearchBuffer(Window(data, idxs[j]))
        && (forall l :: 0 <= l < j ==> SearchBuffer(Window(data, idxs[l])).None?)
    decreases |idxs|
  {
    if idxs != [] && SearchBuffer(Window(data, idxs[0])).None? && AnchoredSearch(data, idxs).Some? {
      var rest := idxs[1..];
      assert InRange(data, rest) by {
        forall j | 0 <= j < |rest| ensures rest[j] <= |data| {
          assert rest[j] == idxs[j + 1];
        }
      }
      AnchoredSearchFirst(data, rest);
      var j :| 0 <= j < |rest| && AnchoredSearch(data, rest) == SearchBuffer(Window(data, rest[j]))
        && (forall l :: 0 <= l < j ==> SearchBuffer(Window(data, rest[l])).None?);
      assert idxs[j + 1] == rest[j];
      forall l | 0 < l < j + 1 ensures SearchBuffer(Window(data, idxs[l])).None? {
        assert idxs[l] == rest[l - 1];
      }
    }
  }

  /** No occurrence of `vs` at an offset up to the search limit starts a candidate run. */
  ghost predicate NoLexicalHit(data: seq<byte>, vs: seq<byte>, from: nat)
  {
    forall k :: from <= k <= SEARCH_LIMIT && OccursAt(data, vs, k) ==> LexicalCandidate(data, k).None?
  }

  /** Without an occurrence of `vs` from `from` up to the limit there is no hit. */
  lemma NoHitWithoutOccurrence(data: seq<byte>, vs: seq<byte>, from: nat)
    requires |vs| > 0
    requires Find(data, vs, from) == -1 || Find(data, vs, from) > SEARCH_LIMIT
    ensures NoLexicalHit(data, vs, from)
  {
    FindSpec(data, vs, from);
  }

  /** The first occurrence of `vs` from `from` on is a hit when it starts a candidate run. */
  lemma HitAtFirstOccurrence(data: seq<byte>, vs: seq<byte>, from: nat)
    requires |vs| > 0
    requires Find(data, vs, from) != -1 && Find(data, vs, from) <= SEARCH_LIMIT
    requires LexicalCandidate(data, Find(data, vs, from)).Some?
    ensures !NoLexicalHit(data, vs, from)
  {
    FindSpec(data, vs, from);
  }

  /** An occurrence with no candidate run, and none before it, leaves the hits to what follows it. */
  lemma NoHitStep(data: seq<byte>, vs: seq<byte>, from: nat)
    requires |vs| > 0
    requires Find(data, vs, from) != -1 && Find(data, vs, from) <= SEARCH_LIMIT
    requires LexicalCandidate(data, Find(data, vs, from)).None?
    requires NoLexicalHit(data, vs, Find(data, vs, from) + 1)
    ensures NoLexicalHit(data, vs, from)
  {
    var k := Find(data, vs, from);
    FindSpec(data, vs, from);
    forall i | from <= i <= SEARCH_LIMIT && OccursAt(data, vs, i)
      ensures LexicalCandidate(data, i).None?
    {
      assert i == k || k + 1 <= i;
    }
  }

  /** Having no hit from an offset on means having none from any later offset. */
  lemma NoHitNarrow(data: seq<byte>, vs: seq<byte>, from: nat, next: nat)
    requires from <= next && NoLexicalHit(data, vs, from)
    ensures NoLexicalHit(data, vs, next)
  {
  }

  /** A scan from `from` that finds nothing passed its first occurrence by, and found nothing after it either. */
  lemma NoneSkips(data: seq<byte>, vs: seq<byte>, from: nat) returns (next: nat)
    requires |vs| > 0
    requires Find(data, vs, from) != -1 && Find(data, vs, from) <= SEARCH_LIMIT
    requires LexicalFrom(data, vs, from).None?
    ensures next == Find(data, vs, from) + 1 && from < next
    ensures LexicalCandidate(data, Find(data, vs, from)).None?
    ensures LexicalFrom(data, vs, next).None?
  {
    next := Find(data, vs, from) + 1;
    if LexicalCandidate(data, Find(data, vs, from)).Some? {
      LexicalFromTakes(data, vs, from);
    } else {
      LexicalFromSkips(data, vs, from);
    }
  }

  lemma {:induction false} NoneMeansNoHit(data: seq<byte>, vs: seq<byte>, from: nat)
    requires |vs| > 0
    requires LexicalFrom(data, vs, from).None?
    ensures NoLexicalHit(data, vs, from)
    decreases |data| - from
  {
    var k := Find(data, vs, from);
    if k == -1 || k > SEARCH_LIMIT {
      NoHitWithoutOccurrence(data, vs, from);
    } else {
      var next := NoneSkips(data, vs, from);
      NoneMeansNoHit(data, vs, next);
      NoHitStep(data, vs, from);
    }
  }

  lemma {:induction false} SomeMeansHit(data: seq<byte>, vs: seq<byte>, from: nat)
    requires |vs| > 0
    requires LexicalFrom(data, vs, from).Some?
    ensures !NoLexicalHit(data, vs, from)
    decreases |data| - from
  {
    var k := Find(data, vs, from);
    if k == -1 || k > SEARCH_LIMIT {
      LexicalFromEnds(data, vs, from);
      assert false;
    } else if LexicalCandidate(data, k).Some? {
      HitAtFirstOccurrence(data, vs, from);
    } else {
      LexicalFromSkips(data, vs, from);
      var next: nat := k + 1;
      SomeMeansHit(data, vs, next);
      if NoLexicalHit(data, vs, from) {
        NoHitNarrow(data, vs, from, next);
      }
    }
  }

  /**
   * The scan of one start token finds nothing exactly when no occurrence of
   * the token from `from` up to offset 500000 starts a candidate run.
   */
  lemma LexicalFromNone(data: seq<byte>, vs: seq<byte>, from: nat)
    requires |vs| > 0
    ensures LexicalFrom(data, vs, from).None? <==> NoLexicalHit(data, vs, from)
  {
    if LexicalFrom(data, vs, from).None? {
      NoneMeansNoHit(data, vs, from);
    } else {
      SomeMeansHit(data, vs, from);
    }
  }

  /** No occurrence of `vs` in `[from, k)` starts a candidate run. */
  ghost predicate NoHitBefore(data: seq<byte>, vs: seq<byte>, from: nat, k: nat)
  {
    forall j :: from <= j < k && OccursAt(data, vs, j) ==> LexicalCandidate(data, j).None?
  }

  /** Skipping an occurrence with no candidate run keeps the earlier offsets free of hits. */
  lemma NoHitBeforeStep(data: seq<byte>, vs: seq<byte>, from: nat, k: nat)
    requires |vs| > 0
    requires Find(data, vs, from) != -1 && Find(data, vs, from) < k
    requires LexicalCandidate(data, Find(data, vs, from)).None?
    requires NoHitBefore(data, vs, Find(data, vs, from) + 1, k)
    ensures NoHitBefore(data, vs, from, k)
  {
    FindSpec(data, vs, from);
  }

  /** Hits-free stretches join. */
  lemma NoHitBeforeJoin(data: seq<byte>, vs: seq<byte>, from: nat, mid: nat, k: nat)
    requires NoHitBefore(data, vs, from, mid) && NoHitBefore(data, vs, mid, k)
    ensures NoHitBefore(data, vs, from, k)
  {
  }

  /** The first occurrence from `from` on leaves no hit before it, nor at it when its run is no candidate. */
  lemma NoHitUpToFind(data: seq<byte>, vs: seq<byte>, from: nat)
    requires |vs| > 0 && Find(data, vs, from) != -1
    ensures from <= Find(data, vs, from) && OccursAt(data, vs, Find(data, vs, from))
    ensures NoHitBefore(data, vs, from, Find(data, vs, from))
    ensures LexicalCandidate(data, Find(data, vs, from)).None? ==> NoHitBefore(data, vs, from, Find(data, vs, from) + 1)
  {
    var f := Find(data, vs, from);
    FindSpec(data, vs, from);
    assert forall j :: from <= j < f ==> !OccursAt(data, vs, j);
    if LexicalCandidate(data, f).None? {
      forall j | from <= j < f + 1 && OccursAt(data, vs, j)
        ensures LexicalCandidate(data, j).None?
      {
        assert j == f;
      }
    }
  }

  /** An occurrence with no candidate run: the scan goes on past it, with no hit up to there. */
  lemma SkipsToNext(data: seq<byte>, vs: seq<byte>, from: nat) returns (next: nat)
    requires |vs| > 0
    requires Find(data, vs, from) != -1 && Find(data, vs, from) <= SEARCH_LIMIT
    requires LexicalCandidate(data, Find(data, vs, from)).None?
    ensures next == Find(data, vs, from) + 1 && from < next
    ensures LexicalFrom(data, vs, next) == LexicalFrom(data, vs, from)
    ensures NoHitBefore(data, vs, from, next)
  {
    next := Find(data, vs, from) + 1;
    NoHitUpToFind(data, vs, from);
    LexicalFromSkips(data, vs, from);
  }

  /** The offset whose run a token's scan returns. */
  lemma {:induction false} FirstHit(data: seq<byte>, vs: seq<byte>, from: nat) returns (k: nat)
    requires |vs| > 0
    requires LexicalFrom(data, vs, from).Some?
    ensures from <= k <= SEARCH_LIMIT && OccursAt(data, vs, k)
    ensures LexicalFrom(data, vs, from) == LexicalCandidate(data, k)
    ensures NoHitBefore(data, vs, from, k)
    decreases |data| - from
  {
    var f := Find(data, vs, from);
    if f == -1 || f > SEARCH_LIMIT {
      LexicalFromEnds(data, vs, from);
      assert false;
    } else if LexicalCandidate(data, f).Some? {
      NoHitUpToFind(data, vs, from);
      LexicalFromTakes(data, vs, from);
      k := f;
    } else {
      var next := SkipsToNext(data, vs, from);
      k := FirstHit(data, vs, next);
      NoHitBeforeJoin(data, vs, from, next, k);
    }
  }

  /**
   * A token's scan returns the run at the first occurrence, from `from` on
   * and up to offset 500000, that starts a candidate run.
   */
  lemma LexicalFromFirst(data: seq<byte>, vs: seq<byte>, from: nat)
    requires |vs| > 0
    ensures LexicalFrom(data, vs, from).Some? ==>
      exists k: nat :: from <= k <= SEARCH_LIMIT && OccursAt(data, vs, k)
        && LexicalFrom(data, vs, from) == LexicalCandidate(data, k) && NoHitBefore(data, vs, from, k)
  {
    if LexicalFrom(data, vs, from).Some? {
      var k := FirstHit(data, vs, from);
    }
  }

  lemma NonEmptyNeedlesTail(vss: seq<seq<byte>>)
    requires vss != [] && NonEmptyNeedles(vss)
    ensures NonEmptyNeedles(vss[1..])
  {
    forall j | 0 <= j < |vss| - 1 ensures |vss[1..][j]| > 0 {
      assert vss[1..][j] == vss[j + 1];
    }
  }

  /** The first token's scan and then the rest. */
  lemma LexicalStartsStep(data: seq<byte>, vss: seq<seq<byte>>)
    requires vss != [] && NonEmptyNeedles(vss)
    ensures NonEmptyNeedles(vss[1..])
    ensures LexicalStarts(data, vss).None? <==> NoLexicalHit(data, vss[0], 0) && LexicalStarts(data, vss[1..]).None?
  {
    NonEmptyNeedlesTail(vss);
    LexicalFromNone(data, vss[0], 0);
  }

  /** The start tokens in turn find nothing exactly when none of them has a hit. */
  lemma {:induction false} LexicalStartsNone(data: seq<byte>, vss: seq<seq<byte>>)
    requires NonEmptyNeedles(vss)
    ensures LexicalStarts(data, vss).None? <==> forall vs :: vs in vss ==> NoLexicalHit(data, vs, 0)
    decreases |vss|
  {
    if vss != [] {
      var rest := vss[1..];
      LexicalStartsStep(data, vss);
      LexicalStartsNone(data, rest);
      if LexicalStarts(data, vss).None? {
        forall vs | vs in vss ensures NoLexicalHit(data, vs, 0) {
          var i :| 0 <= i < |vss| && vss[i] == vs;
          if i > 0 {
            assert rest[i - 1] == vs;
          }
        }
      }
      if forall vs :: vs in vss ==> NoLexicalHit(data, vs, 0) {
        assert vss[0] in vss;
        forall vs | vs in rest ensures NoLexicalHit(data, vs, 0) {
          assert vs in vss;
        }
      }
    }
  }

  /** No pattern has a valid capture in the window around any anchor. */
  ghost predicate NoAnchoredCandidate(data: seq<byte>)
  {
    AnchorsInRange(data);
    forall j :: 0 <= j < |Anchors(data)| ==>
      forall p: Pattern :: !HasValidCapture(Window(data, Anchors(data)[j]), p)
  }

  lemma AnchoredTierNone(data: seq<byte>)
    ensures AnchoredTier(data).None? <==> NoAnchoredCandidate(data)
  {
    AnchorsInRange(data);
    var anchors := Anchors(data);
    AnchoredSearchNone(data, anchors);
    forall j | 0 <= j < |anchors|
      ensures SearchBuffer(Window(data, anchors[j])).None? <==>
        forall p: Pattern :: !HasValidCapture(Window(data, anchors[j]), p)
    {
      SearchBufferNone(Window(data, anchors[j]));
    }
  }

  /** No start token occurs up to offset 500000 at the start of a candidate run. */
  ghost predicate NoLexicalCandidate(data: seq<byte>)
  {
    forall vs :: vs in VERSION_STARTS ==> NoLexicalHit(data, vs, 0)
  }

  lemma LexicalTierNone(data: seq<byte>)
    ensures LexicalTier(data).None? <==> NoLexicalCandidate(data)
  {
    LexicalStartsNone(data, VERSION_STARTS);
  }

  /**
   * Nothing in an entry's bytes passes the validator by any of the three
   * tiers: no pattern has a valid capture in the window around any anchor or
   * in the first 500000 bytes, and no occurrence of a start token up to
   * offset 500000 starts a candidate run.
   */
  ghost predicate NoCandidate(data: seq<byte>)
  {
    && NoAnchoredCandidate(data)
    && (forall p: Pattern :: !HasValidCapture(Head(data), p))
    && NoLexicalCandidate(data)
  }

  /** The search of an entry's bytes finds nothing exactly when no candidate in them is valid. */
  lemma FindVersionNone(data: seq<byte>)
    ensures FindVersion(data).None? <==> NoCandidate(data)
  {
    AnchoredTierNone(data);
    SearchBufferNone(Head(data));
    LexicalTierNone(data);
    assert FindVersion(data).None? <==> AnchoredTier(data).None? && BulkTier(data).None? && LexicalTier(data).None?;
  }
}
