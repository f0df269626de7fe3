/**
 * A worked instance of the anchored tier: `Unity` followed by a full version.
 */
module SearchExamples {

  import opened Wrappers
  import opened Bytes
  import opened Validation
  import opened Patterns
  import opened Search

  /** The bytes of `Unity 2021.3.1f1`. */
  const SAMPLE: seq<byte> :=
    [0x55, 0x6E, 0x69, 0x74, 0x79, 0x20, 0x32, 0x30, 0x32, 0x31, 0x2E, 0x33, 0x2E, 0x31, 0x66, 0x31]

  /** `Unity` occurs nowhere in the sample after offset 0. */
  lemma SampleMarkerOnce()
    ensures Find(SAMPLE, UNITY_MARKER, 1) == -1
  {
    forall k: nat | 1 <= k
      ensures !OccursAt(SAMPLE, UNITY_MARKER, k)
    {
      if k + 5 <= |SAMPLE| {
        assert SAMPLE[k..k + 5][0] == SAMPLE[k] != 0x55;
      }
    }
    FindSpec(SAMPLE, UNITY_MARKER, 1);
  }

  lemma SampleAnchors()
    ensures Anchors(SAMPLE) == [0]
  {
    SampleMarkerOnce();
    assert Occurrences(SAMPLE, UNITY_MARKER, 1) == [];
    assert SAMPLE[0..5] == UNITY_MARKER;
    assert Find(SAMPLE, UNITY_MARKER, 0) == 0;
    assert Occurrences(SAMPLE, UNITY_MARKER, 0) == [0];
  }

  lemma SampleMatchAt()
    ensures MatchAt(BareVersion, SAMPLE, 6) == Some(Match(Span(6, 16), 16))
  {
    assert DigitRunEnd(SAMPLE, 10) == 10;
    assert DigitRunEnd(SAMPLE, 9) == 10;
    assert DigitRunEnd(SAMPLE, 8) == 10;
    assert DigitRunEnd(SAMPLE, 7) == 10;
    assert DigitRunEnd(SAMPLE, 12) == 12;
    assert DigitRunEnd(SAMPLE, 11) == 12;
    assert DigitRunEnd(SAMPLE, 14) == 14;
    assert DigitRunEnd(SAMPLE, 13) == 14;
    assert TripleEnd(SAMPLE, 6) == Some(14);
    assert DigitRunEnd(SAMPLE, 16) == 16;
    assert DigitRunEnd(SAMPLE, 15) == 16;
  }

  lemma SampleNoEarlierMatch()
    ensures forall i: nat | i < 6 :: MatchAt(BareVersion, SAMPLE, i) == None
  {
    forall i: nat | i < 6
      ensures MatchAt(BareVersion, SAMPLE, i) == None
    {
      assert DigitRunEnd(SAMPLE, i) == i;
    }
  }

  lemma SampleMatchFrom6()
    ensures FindAll(BareVersion, SAMPLE, 6) == [Span(6, 16)]
  {
    SampleMatchAt();
    assert FindAll(BareVersion, SAMPLE, 16) == [];
  }

  lemma SampleMatches()
    ensures FindAll(BareVersion, SAMPLE, 0) == [Span(6, 16)]
  {
    SampleNoEarlierMatch();
    SampleMatchFrom6();
    assert FindAll(BareVersion, SAMPLE, 5) == [Span(6, 16)];
    assert FindAll(BareVersion, SAMPLE, 4) == [Span(6, 16)];
    assert FindAll(BareVersion, SAMPLE, 3) == [Span(6, 16)];
    assert FindAll(BareVersion, SAMPLE, 2) == [Span(6, 16)];
    assert FindAll(BareVersion, SAMPLE, 1) == [Span(6, 16)];
  }

  lemma SampleCaptured()
    ensures Captured(SAMPLE, Span(6, 16)) == "2021.3.1f1"
    ensures FirstValid(SAMPLE, [Span(6, 16)]) == Some("2021.3.1f1")
  {
    assert Captured(SAMPLE, Span(6, 16)) == "2021.3.1f1";
    AcceptsYearVersion();
  }

  lemma SampleSearchBuffer()
    ensures SearchBuffer(SAMPLE) == Some("2021.3.1f1")
  {
    SampleMatches();
    SampleCaptured();
  }

  /** The marker followed within 200 bytes by `2021.3.1f1`: the anchored tier returns it. */
  lemma AnchoredFindsSample()
    ensures AnchoredTier(SAMPLE) == Some("2021.3.1f1")
    ensures FindVersion(SAMPLE) == Some("2021.3.1f1")
  {
    SampleAnchors();
    assert SAMPLE[WindowStart(0)..WindowEnd(SAMPLE, 0)] == SAMPLE;
    SampleSearchBuffer();
  }
}
