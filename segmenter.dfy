/**
 * `scan_thai_chunk` (main.py:33-46): split a string, left to right, into maximal runs of
 * Thai and of non-Thai characters.
 */
module Segmenter {
  import opened Wrappers
  import opened Strings
  import opened Labels

  /** One yielded `(is_thai, chunk)` pair. */
  datatype Chunk = Chunk(isThai: bool, text: string)

  function Texts(cs: seq<Chunk>): seq<string>
  {
    seq(|cs|, i requires 0 <= i < |cs| => cs[i].text)
  }

  /**
   * One step of the scan: character `c` either extends the last run (same
   * classification) or starts a new run.
   */
  function Extend(prev: seq<Chunk>, c: char): seq<Chunk>
  {
    if |prev| > 0 && prev[|prev| - 1].isThai == IsThai(c)
    then prev[..|prev| - 1] + [Chunk(IsThai(c), prev[|prev| - 1].text + [c])]
    else prev + [Chunk(IsThai(c), [c])]
  }

  /** The runs of `s`, built the way the scan builds them, one character at a time. */
  function Scan(s: string): seq<Chunk>
    decreases |s|
  {
    if |s| == 0 then [] else Extend(Scan(s[..|s| - 1]), s[|s| - 1])
  }

  /** A non-empty run whose characters all have the run's classification. */
  ghost predicate Uniform(c: Chunk)
  {
    |c.text| > 0 && forall j :: 0 <= j < |c.text| ==> IsThai(c.text[j]) == c.isThai
  }

  /** Non-empty runs, each of one classification, neighbours of opposite classification. */
  ghost predicate Runs(cs: seq<Chunk>)
  {
    && (forall i :: 0 <= i < |cs| ==> Uniform(cs[i]))
    && (forall i :: 0 < i < |cs| ==> cs[i - 1].isThai != cs[i].isThai)
  }

  /** One step keeps the runs maximal. */
  lemma ExtendRuns(prev: seq<Chunk>, c: char)
    requires Runs(prev)
    ensures Runs(Extend(prev, c))
    ensures |Extend(prev, c)| > 0
  {
    var r := Extend(prev, c);
    var n := |prev|;
    if n > 0 && prev[n - 1].isThai == IsThai(c) {
      var last := prev[n - 1];
      assert |r| == n;
      assert forall i :: 0 <= i < n - 1 ==> r[i] == prev[i];
      assert r[n - 1] == Chunk(IsThai(c), last.text + [c]);
      assert Uniform(last);
      var t := last.text + [c];
      forall j | 0 <= j < |t|
        ensures IsThai(t[j]) == IsThai(c)
      {
        if j < |last.text| {
          assert t[j] == last.text[j];
        }
      }
      assert Uniform(r[n - 1]);
    } else {
      assert |r| == n + 1;
      assert forall i :: 0 <= i < n ==> r[i] == prev[i];
      assert r[n] == Chunk(IsThai(c), [c]);
    }
  }

  /** One step appends `c` to the concatenated text. */
  lemma ExtendConcat(prev: seq<Chunk>, c: char)
    ensures Concat(Texts(Extend(prev, c))) == Concat(Texts(prev)) + [c]
  {
    var r := Extend(prev, c);
    var n := |prev|;
    if n > 0 && prev[n - 1].isThai == IsThai(c) {
      var last := prev[n - 1];
      assert Texts(r)[..n - 1] == Texts(prev)[..n - 1];
      assert Concat(Texts(prev)) == Concat(Texts(prev)[..n - 1]) + last.text;
      assert Concat(Texts(r)) == Concat(Texts(r)[..n - 1]) + (last.text + [c]);
    } else {
      assert Texts(r)[..n] == Texts(prev);
    }
  }

  /** The runs of a scan are maximal; only the empty string has none. */
  lemma {:induction false} ScanMaximal(s: string)
    ensures Runs(Scan(s))
    ensures Scan(s) == [] <==> s == []
    decreases |s|
  {
    if |s| > 0 {
      var p, c := s[..|s| - 1], s[|s| - 1];
      ScanMaximal(p);
      ExtendRuns(Scan(p), c);
    }
  }

  /** The runs of a scan concatenate back to the input. */
  lemma {:induction false} ScanConcat(s: string)
    ensures Concat(Texts(Scan(s))) == s
    decreases |s|
  {
    if |s| > 0 {
      var p, c := s[..|s| - 1], s[|s| - 1];
      ScanConcat(p);
      ExtendConcat(Scan(p), c);
      assert Scan(s) == Extend(Scan(p), c);
      assert p + [c] == s;
    }
  }

  /** The runs of a scan are maximal and concatenate back to the input; only the empty string has none. */
  lemma ScanRuns(s: string)
    ensures Runs(Scan(s))
    ensures Concat(Texts(Scan(s))) == s
    ensures Scan(s) == [] <==> s == []
  {
    ScanMaximal(s);
    ScanConcat(s);
  }

  lemma TextsSnoc(cs: seq<Chunk>, c: Chunk)
    ensures Concat(Texts(cs + [c])) == Concat(Texts(cs)) + c.text
  {
    assert Texts(cs + [c]) == Texts(cs) + [c.text];
    assert (Texts(cs) + [c.text])[..|cs|] == Texts(cs);
  }

  /** Dropping the last run, or the last character of a longer last run, keeps the runs maximal. */
  lemma RunsInit(cs: seq<Chunk>)
    requires Runs(cs) && |cs| > 0
    ensures Runs(cs[..|cs| - 1])
    ensures |cs[|cs| - 1].text| > 1 ==> Runs(cs[..|cs| - 1] + [Chunk(cs[|cs| - 1].isThai, cs[|cs| - 1].text[..|cs[|cs| - 1].text| - 1])])
  {
    var n := |cs|;
    var init, last := cs[..n - 1], cs[n - 1];
    assert forall i :: 0 <= i < n - 1 ==> init[i] == cs[i];
    if |last.text| > 1 {
      var shorter := init + [Chunk(last.isThai, last.text[..|last.text| - 1])];
      assert forall i :: 0 <= i < n - 1 ==> shorter[i] == cs[i];
      assert Uniform(last);
      assert Uniform(shorter[n - 1]);
    }
  }

  /**
   * Maximality pins the scan down: any list of maximal runs that concatenates to `s`
   * is the scan of `s`.
   */
  lemma {:induction false} ScanUnique(s: string, cs: seq<Chunk>)
    requires Runs(cs)
    requires Concat(Texts(cs)) == s
    ensures cs == Scan(s)
    decreases |s|
  {
    var n := |cs|;
    if |s| > 0 {
      assert n > 0;
      var init, last := cs[..n - 1], cs[n - 1];
      var m := |last.text|;
      var p, c := s[..|s| - 1], s[|s| - 1];
      assert cs == init + [last];
      TextsSnoc(init, last);
      RunsInit(cs);
      assert Uniform(last);
      assert c == last.text[m - 1];
      assert last.isThai == IsThai(c);
      if m == 1 {
        assert Concat(Texts(init)) == p;
        ScanUnique(p, init);
        assert last == Chunk(IsThai(c), [c]);
        assert n > 1 ==> init[n - 2].isThai != IsThai(c);
      } else {
        var first := Chunk(last.isThai, last.text[..m - 1]);
        var shorter := init + [first];
        TextsSnoc(init, first);
        assert last.text == first.text + [c];
        ScanUnique(p, shorter);
        assert shorter[..n - 1] == init;
        assert cs == init + [Chunk(IsThai(c), first.text + [c])];
      }
    }
  }

  /** A string without Thai characters is one non-Thai run. */
  lemma {:induction false} ScanNoThai(s: string)
    requires |s| > 0
    requires forall i :: 0 <= i < |s| ==> !IsThai(s[i])
    ensures Scan(s) == [Chunk(false, s)]
  {
    var one := [Chunk(false, s)];
    assert Texts(one) == [s];
    assert Concat([s]) == Concat([s][..0]) + s;
    assert Runs(one);
    ScanUnique(s, one);
  }

  /** `scan_thai_chunk`, collecting what the generator yields. */
  method ScanThaiChunk(text: string) returns (chunks: seq<Chunk>)
    ensures chunks == Scan(text)
  {
    var chunkType: Option<bool> := None;
    var chunkCur: string := "";
    chunks := [];
    for i := 0 to |text|
      invariant i == 0 ==> chunkType == None && chunkCur == [] && chunks == []
      invariant i > 0 ==> chunkType.Some? && chunkCur != []
      invariant i > 0 ==> chunks + [Chunk(chunkType.value, chunkCur)] == Scan(text[..i])
    {
      var ch := text[i];
      var isThai := IsThai(ch);
      assert text[..i + 1][..i] == text[..i];
      if chunkType == Some(isThai) {
        chunkCur := chunkCur + [ch];
      } else {
        if chunkCur != [] {
          chunks := chunks + [Chunk(chunkType.value, chunkCur)];
        }
        chunkCur := [ch];
        chunkType := Some(isThai);
      }
    }
    if chunkCur != [] {
      chunks := chunks + [Chunk(chunkType.value, chunkCur)];
    }
    assert text[..|text|] == text;
  }
}
