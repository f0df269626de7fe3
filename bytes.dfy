/**
 * Byte buffers as read from an archive entry, the byte classes the version
 * search distinguishes, substring search, and the decoding of an ASCII span
 * into a string.
 */
module Bytes {

  newtype byte = x: int | 0 <= x < 256

  /** The byte string `Unity` (0x55 0x6E 0x69 0x74 0x79), searched case-sensitively. */
  const UNITY_MARKER: seq<byte> := [0x55, 0x6E, 0x69, 0x74, 0x79]

  /** ASCII `0`..`9`: what `\d` matches in a bytes pattern. */
  predicate IsDigit(b: byte) { 0x30 <= b <= 0x39 }

  /** ASCII `A`..`Z` and `a`..`z`. */
  predicate IsLetter(b: byte) { 0x41 <= b <= 0x5A || 0x61 <= b <= 0x7A }

  /** What `\s` matches in a bytes pattern: space, tab, LF, VT, FF, CR. */
  predicate IsSpace(b: byte) { b == 0x20 || 0x09 <= b <= 0x0D }

  /** The byte `.`. */
  predicate IsDot(b: byte) { b == 0x2E }

  /** Printable ASCII, 32..126: the bytes the lexical scan extends over. */
  predicate IsPrintable(b: byte) { 32 <= b <= 126 }

  /** ASCII-only case folding, as a case-insensitive bytes pattern uses it. */
  function Lower(b: byte): (r: byte)
    ensures IsLetter(b) ==> IsLetter(r) && 0x61 <= r <= 0x7A && (r == b || r == b + 0x20)
    ensures !IsLetter(b) ==> r == b
  {
    if 0x41 <= b <= 0x5A then b + 0x20 else b
  }

  predicate IsAscii(bs: seq<byte>) { forall i :: 0 <= i < |bs| ==> bs[i] < 128 }

  /**
   * Decoding with `utf-8` and `errors='ignore'`. Every span the search decodes
   * is pure ASCII, where this decoding maps each byte to the character with
   * the same code.
   */
  function Decode(bs: seq<byte>): string
    requires IsAscii(bs)
  {
    seq(|bs|, i requires 0 <= i < |bs| => (bs[i] as int) as char)
  }

  /** `s` is the decoding of the ASCII bytes `bs`, character by character. */
  predicate Spells(bs: seq<byte>, s: string)
  {
    |bs| == |s| && forall i :: 0 <= i < |bs| ==> bs[i] < 128 && bs[i] as int == s[i] as int
  }

  lemma DecodeSpells(bs: seq<byte>)
    requires IsAscii(bs)
    ensures Spells(bs, Decode(bs))
  {
  }

  lemma SliceOfSlice(data: seq<byte>, a: nat, b: nat, lo: nat, hi: nat)
    requires a <= b <= |data| && lo <= hi <= b - a
    ensures data[a..b][lo..hi] == data[a + lo..a + hi]
  {
    var l, r := data[a..b][lo..hi], data[a + lo..a + hi];
    forall i | 0 <= i < |l|
      ensures l[i] == r[i]
    {
      assert l[i] == data[a..b][lo + i];
    }
  }

  /** The needle occurs in `data` at offset `k`. */
  predicate OccursAt(data: seq<byte>, needle: seq<byte>, k: nat)
  {
    k + |needle| <= |data| && data[k..k + |needle|] == needle
  }

  /**
   * `data.find(needle, from)`: the lowest offset at or after `from` where the
   * needle occurs, or -1 when there is none.
   */
  function Find(data: seq<byte>, needle: seq<byte>, from: nat): (r: int)
    requires |needle| > 0
    ensures r == -1 || (from <= r && r + |needle| <= |data|)
    decreases |data| - from
  {
    if from + |needle| > |data| then -1
    else if data[from..from + |needle|] == needle then from
    else Find(data, needle, from + 1)
  }

  /** `find` returns the first occurrence at or after `from`, and -1 exactly when there is none. */
  lemma {:induction false} FindSpec(data: seq<byte>, needle: seq<byte>, from: nat)
    requires |needle| > 0
    ensures Find(data, needle, from) == -1 || OccursAt(data, needle, Find(data, needle, from))
    ensures Find(data, needle, from) != -1 ==>
      forall k :: from <= k < Find(data, needle, from) ==> !OccursAt(data, needle, k)
    ensures Find(data, needle, from) == -1 ==> forall k :: from <= k ==> !OccursAt(data, needle, k)
    decreases |data| - from
  {
    if from + |needle| <= |data| && data[from..from + |needle|] != needle {
      FindSpec(data, needle, from + 1);
    }
  }

  /**
   * The offsets found by calling `find` repeatedly, each time one past the
   * previous hit, until it fails.
   */
  function Occurrences(data: seq<byte>, needle: seq<byte>, from: nat): seq<nat>
    requires |needle| > 0
    decreases |data| - from
  {
    var k := Find(data, needle, from);
    if k == -1 then [] else [k] + Occurrences(data, needle, k + 1)
  }

  /**
   * The repeated `find` lists every offset at or after `from` where the needle
   * occurs, each once, in ascending order.
   */
  lemma OccurrencesSpec(data: seq<byte>, needle: seq<byte>, from: nat)
    requires |needle| > 0
    ensures forall j :: 0 <= j < |Occurrences(data, needle, from)| ==>
      from <= Occurrences(data, needle, from)[j] && OccursAt(data, needle, Occurrences(data, needle, from)[j])
    ensures forall j, l :: 0 <= j < l < |Occurrences(data, needle, from)| ==>
      Occurrences(data, needle, from)[j] < Occurrences(data, needle, from)[l]
    ensures forall k :: from <= k && OccursAt(data, needle, k) ==> k in Occurrences(data, needle, from)
  {
    OccurrencesSound(data, needle, from);
    OccurrencesAscending(data, needle, from);
    OccurrencesComplete(data, needle, from);
  }

  lemma {:induction false} OccurrencesSound(data: seq<byte>, needle: seq<byte>, from: nat)
    requires |needle| > 0
    ensures forall j :: 0 <= j < |Occurrences(data, needle, from)| ==>
      from <= Occurrences(data, needle, from)[j] && OccursAt(data, needle, Occurrences(data, needle, from)[j])
    decreases |data| - from
  {
    var k := Find(data, needle, from);
    FindSpec(data, needle, from);
    if k != -1 {
      var next: nat := k + 1;
      OccurrencesSound(data, needle, next);
      var r := Occurrences(data, needle, from);
      var rest := Occurrences(data, needle, next);
      assert r == [k] + rest;
      forall j | 0 <= j < |r|
        ensures from <= r[j] && OccursAt(data, needle, r[j])
      {
        if j > 0 {
          assert r[j] == rest[j - 1];
        }
      }
    }
  }

  lemma {:induction false} OccurrencesAscending(data: seq<byte>, needle: seq<byte>, from: nat)
    requires |needle| > 0
    ensures forall j :: 0 <= j < |Occurrences(data, needle, from)| ==> from <= Occurrences(data, needle, from)[j]
    ensures forall j, l :: 0 <= j < l < |Occurrences(data, needle, from)| ==>
      Occurrences(data, needle, from)[j] < Occurrences(data, needle, from)[l]
    decreases |data| - from
  {
    var k := Find(data, needle, from);
    if k != -1 {
      var next: nat := k + 1;
      OccurrencesAscending(data, needle, next);
      var r := Occurrences(data, needle, from);
      var rest := Occurrences(data, needle, next);
      assert r == [k] + rest;
      forall j | 0 < j < |r|
        ensures next <= r[j]
      {
        assert r[j] == rest[j - 1];
      }
      forall j, l | 0 < j < l < |r|
        ensures r[j] < r[l]
      {
        assert r[j] == rest[j - 1] && r[l] == rest[l - 1];
      }
    }
  }

  lemma {:induction false} OccurrencesComplete(data: seq<byte>, needle: seq<byte>, from: nat)
    requires |needle| > 0
    ensures forall k :: from <= k && OccursAt(data, needle, k) ==> k in Occurrences(data, needle, from)
    decreases |data| - from
  {
    var k := Find(data, needle, from);
    FindSpec(data, needle, from);
    if k != -1 {
      var next: nat := k + 1;
      OccurrencesComplete(data, needle, next);
      var r := Occurrences(data, needle, from);
      var rest := Occurrences(data, needle, next);
      assert r == [k] + rest;
      forall m | from <= m && OccursAt(data, needle, m)
        ensures m in r
      {
        if m != k {
          assert next <= m;
          assert m in rest;
        }
      }
    }
  }
}
