/**
 * The character tables of main.py: the Thai membership test (`thai_chars`) and the
 * alphabet that turns characters into the predictor's input labels (`_char_set`,
 * `_dictionary`).
 */
module Labels {
  import opened Wrappers

  /** `[chr(x) for x in range(lo, hi)]`. */
  function CodePoints(lo: nat, hi: nat): seq<char>
    requires lo <= hi <= 0xD800
  {
    seq(hi - lo, i requires 0 <= i < hi - lo => (lo + i) as char)
  }

  /** The list `thai_chars` is built from: U+0E01..U+0E39 and U+0E3F..U+0E4C. */
  const ThaiCodePoints: seq<char> := CodePoints(0x0E01, 0x0E3A) + CodePoints(0x0E3F, 0x0E4D)

  /** `ch in thai_chars`. */
  predicate IsThai(c: char)
  {
    c in ThaiCodePoints
  }

  /** Membership in `thai_chars` is exactly the two inclusive code-point ranges. */
  lemma ThaiRanges(c: char)
    ensures IsThai(c) <==> (0x0E01 <= c as int <= 0x0E39 || 0x0E3F <= c as int <= 0x0E4C)
  {
    if 0x0E01 <= c as int <= 0x0E39 {
      assert ThaiCodePoints[c as int - 0x0E01] == c;
    } else if 0x0E3F <= c as int <= 0x0E4C {
      assert ThaiCodePoints[57 + c as int - 0x0E3F] == c;
    }
  }

  /** `_char_set`: NUL, LF, printable ASCII, the two Thai ranges, then the Thai digits. */
  const CharSet: seq<char> :=
    CodePoints(0, 1) + CodePoints(0x0A, 0x0B) + CodePoints(0x20, 0x7F)
    + CodePoints(0x0E01, 0x0E3A) + CodePoints(0x0E3F, 0x0E4D) + CodePoints(0x0E50, 0x0E5A)

  /** The number of labels the predictor knows. */
  const LabelCount: nat := 178

  ghost predicate Increasing(s: seq<char>)
  {
    forall i, j :: 0 <= i < j < |s| ==> s[i] < s[j]
  }

  lemma CodePointsIncreasing(lo: nat, hi: nat)
    requires lo <= hi <= 0xD800
    ensures Increasing(CodePoints(lo, hi))
  {
  }

  lemma IncreasingAppend(a: seq<char>, b: seq<char>)
    requires Increasing(a) && Increasing(b)
    requires |a| > 0 && |b| > 0 && a[|a| - 1] < b[0]
    ensures Increasing(a + b)
  {
    forall i, j | 0 <= i < j < |a + b|
      ensures (a + b)[i] < (a + b)[j]
    {
      if i < |a| && |a| <= j {
        assert a[i] <= a[|a| - 1];
        assert b[0] <= b[j - |a|];
      }
    }
  }

  /** The alphabet lists its characters in strictly increasing code-point order, so no character occurs twice. */
  lemma CharSetIncreasing()
    ensures |CharSet| == LabelCount
    ensures Increasing(CharSet)
  {
    var p0, p1, p2 := CodePoints(0, 1), CodePoints(0x0A, 0x0B), CodePoints(0x20, 0x7F);
    var p3, p4, p5 := CodePoints(0x0E01, 0x0E3A), CodePoints(0x0E3F, 0x0E4D), CodePoints(0x0E50, 0x0E5A);
    CodePointsIncreasing(0, 1);
    CodePointsIncreasing(0x0A, 0x0B);
    CodePointsIncreasing(0x20, 0x7F);
    CodePointsIncreasing(0x0E01, 0x0E3A);
    CodePointsIncreasing(0x0E3F, 0x0E4D);
    CodePointsIncreasing(0x0E50, 0x0E5A);
    IncreasingAppend(p0, p1);
    IncreasingAppend(p0 + p1, p2);
    IncreasingAppend(p0 + p1 + p2, p3);
    IncreasingAppend(p0 + p1 + p2 + p3, p4);
    IncreasingAppend(p0 + p1 + p2 + p3 + p4, p5);
  }

  /** The Thai part of the alphabet is exactly the list `thai_chars` is built from. */
  lemma CharSetThaiPart()
    ensures |CharSet| == LabelCount
    ensures CharSet[97..168] == ThaiCodePoints
  {
  }

  /** `{v: k for k, v in enumerate(cs)}`: each character to its position, a later position overwriting an earlier one. */
  function IndexOf(cs: seq<char>): (d: map<char, nat>)
    ensures forall c :: c in d <==> c in cs
    ensures forall c :: c in d ==> d[c] < |cs| && cs[d[c]] == c
  {
    if |cs| == 0 then map[]
    else IndexOf(cs[..|cs| - 1])[cs[|cs| - 1] := |cs| - 1]
  }

  /** `_dictionary`. */
  const Dictionary: map<char, nat> := IndexOf(CharSet)

  /**
   * `_dictionary` inverts `_char_set`: every label 0..177 maps back to itself, every key
   * has a label below 178, and the keys are exactly the alphabet.
   */
  lemma DictionaryInvertsCharSet()
    ensures |CharSet| == LabelCount
    ensures forall i :: 0 <= i < |CharSet| ==> CharSet[i] in Dictionary && Dictionary[CharSet[i]] == i
    ensures forall c :: c in Dictionary ==> Dictionary[c] < LabelCount && CharSet[Dictionary[c]] == c
  {
    CharSetIncreasing();
    forall i | 0 <= i < |CharSet|
      ensures CharSet[i] in Dictionary && Dictionary[CharSet[i]] == i
    {
      var k := Dictionary[CharSet[i]];
      assert CharSet[k] == CharSet[i];
    }
  }

  /** Every character of `thai_chars` is a key of `_dictionary`: the lookup in `break_word` never fails on a Thai run. */
  lemma ThaiHasLabel(c: char)
    requires IsThai(c)
    ensures c in Dictionary
  {
    CharSetThaiPart();
    var i :| 0 <= i < |ThaiCodePoints| && ThaiCodePoints[i] == c;
    assert CharSet[97 + i] == c;
  }

  /** The Thai digits U+0E50..U+0E59 have labels but are not Thai characters. */
  lemma ThaiDigitsNotThai(c: char)
    requires 0x0E50 <= c as int <= 0x0E59
    ensures !IsThai(c) && c in Dictionary
  {
    ThaiRanges(c);
    assert CharSet[168 + (c as int - 0x0E50)] == c;
  }

  /** `[_dictionary[ch] for ch in chunk]`; `None` where the lookup raises `KeyError`. */
  function Encode(chunk: string): Option<seq<nat>>
  {
    if forall i :: 0 <= i < |chunk| ==> chunk[i] in Dictionary
    then Some(seq(|chunk|, i requires 0 <= i < |chunk| => Dictionary[chunk[i]]))
    else None
  }

  /**
   * The lookup fails exactly on a character outside the alphabet; otherwise label `i` names
   * the alphabet entry equal to character `i`.
   */
  lemma EncodeLabels(chunk: string)
    ensures Encode(chunk).Some? <==> forall i :: 0 <= i < |chunk| ==> chunk[i] in Dictionary
    ensures Encode(chunk).Some? ==> forall i :: 0 <= i < |chunk| ==> Encode(chunk).value[i] < LabelCount && CharSet[Encode(chunk).value[i]] == chunk[i]
  {
    DictionaryInvertsCharSet();
  }

  /** A string of Thai characters always encodes. */
  lemma ThaiEncodes(chunk: string)
    requires forall i :: 0 <= i < |chunk| ==> IsThai(chunk[i])
    ensures Encode(chunk).Some?
  {
    forall i | 0 <= i < |chunk|
      ensures chunk[i] in Dictionary
    {
      ThaiHasLabel(chunk[i]);
    }
    EncodeLabels(chunk);
  }
}
