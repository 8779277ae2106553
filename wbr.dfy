/**
 * `add_wbr` (main.py:48-56): non-Thai runs pass through, each Thai run becomes its
 * words joined by the literal `&#8203;`, and the results are concatenated in order.
 */
module Wbr {
  import opened Wrappers
  import opened Strings
  import opened Labels
  import opened Segmenter
  import opened WordBreak

  /**
   * The separator: the seven-character HTML numeric character reference for U+200B
   * ZERO WIDTH SPACE, not the character itself.
   */
  const Marker: string := "&#8203;"

  /** Every character of a Thai chunk has a label (what the segmenter guarantees). */
  predicate Labelled(c: Chunk)
  {
    c.isThai ==> Encode(c.text).Some?
  }

  /** Thai runs are made of Thai characters, and those all have labels. */
  lemma RunsLabelled(cs: seq<Chunk>)
    requires Runs(cs)
    ensures forall k :: 0 <= k < |cs| ==> Labelled(cs[k])
  {
    forall k | 0 <= k < |cs|
      ensures Labelled(cs[k])
    {
      assert Uniform(cs[k]);
      if cs[k].isThai {
        ThaiEncodes(cs[k].text);
      }
    }
  }

  /** What one chunk becomes in the output. */
  function Render(c: Chunk, predict: seq<nat> -> seq<bool>): string
    requires SameLength(predict) && Labelled(c)
  {
    if !c.isThai then c.text
    else Join(Words(c.text, predict(Encode(c.text).value)), Marker)
  }

  /** The list `out` after the given chunks. */
  function RenderAll(cs: seq<Chunk>, predict: seq<nat> -> seq<bool>): seq<string>
    requires SameLength(predict)
    requires forall k :: 0 <= k < |cs| ==> Labelled(cs[k])
  {
    seq(|cs|, k requires 0 <= k < |cs| => Render(cs[k], predict))
  }

  /** The string `add_wbr` returns. */
  function WithBreaks(text: string, predict: seq<nat> -> seq<bool>): string
    requires SameLength(predict)
  {
    ScanLabelled(text);
    Concat(RenderAll(Scan(text), predict))
  }

  /** Every Thai chunk of a scan has labels for all its characters. */
  lemma ScanLabelled(text: string)
    ensures forall k :: 0 <= k < |Scan(text)| ==> Labelled(Scan(text)[k])
  {
    ScanRuns(text);
    RunsLabelled(Scan(text));
  }

  lemma RenderAllSnoc(cs: seq<Chunk>, i: nat, predict: seq<nat> -> seq<bool>)
    requires SameLength(predict)
    requires forall k :: 0 <= k < |cs| ==> Labelled(cs[k])
    requires i < |cs|
    ensures RenderAll(cs[..i + 1], predict) == RenderAll(cs[..i], predict) + [Render(cs[i], predict)]
  {
    assert cs[..i + 1][..i] == cs[..i];
  }

  /** `add_wbr`: the lookup in `break_word` never fails, because it only ever sees Thai runs. */
  method AddWbr(text: string, predict: seq<nat> -> seq<bool>) returns (result: string)
    requires SameLength(predict)
    ensures result == WithBreaks(text, predict)
  {
    var chunks := ScanThaiChunk(text);
    ScanLabelled(text);
    var out: seq<string> := [];
    for i := 0 to |chunks|
      invariant out == RenderAll(chunks[..i], predict)
    {
      var chunk := chunks[i];
      RenderAllSnoc(chunks, i, predict);
      if !chunk.isThai {
        out := out + [chunk.text];
      } else {
        var words := BreakWord(chunk.text, predict);
        out := out + [Join(words.value, Marker)];
      }
    }
    assert chunks[..|chunks|] == chunks;
    result := Concat(out);
  }

  /** A string without Thai characters comes back unchanged. */
  lemma NoThaiUnchanged(text: string, predict: seq<nat> -> seq<bool>)
    requires SameLength(predict)
    requires forall i :: 0 <= i < |text| ==> !IsThai(text[i])
    ensures WithBreaks(text, predict) == text
  {
    if |text| > 0 {
      ScanNoThai(text);
      var one := [Chunk(false, text)];
      assert RenderAll(one, predict) == RenderAll([], predict) + [text];
      assert Concat([text]) == Concat([]) + text;
    }
  }

  // Visible content: removing every marker, left to right, as `str.replace` does.

  /** `s.replace('&#8203;', '')`. */
  function StripMarkers(s: string): string
    decreases |s|
  {
    if |s| >= |Marker| && s[..|Marker|] == Marker then StripMarkers(s[|Marker|..])
    else if |s| == 0 then []
    else [s[0]] + StripMarkers(s[1..])
  }

  /** No character of `s` occurs in the marker. */
  predicate Plain(s: string)
  {
    forall i :: 0 <= i < |s| ==> s[i] !in Marker
  }

  /** `s` contains no occurrence of the marker. */
  predicate MarkerFree(s: string)
  {
    forall i :: 0 <= i < |s| ==> !(Marker <= s[i..])
  }

  lemma ThaiNotInMarker(c: char)
    requires IsThai(c)
    ensures c !in Marker
  {
    ThaiRanges(c);
    assert Marker == ['&', '#', '8', '2', '0', '3', ';'];
  }

  /** Removing markers leaves a marker-free string unchanged. */
  lemma {:induction false} StripMarkerFree(s: string)
    requires MarkerFree(s)
    ensures StripMarkers(s) == s
    decreases |s|
  {
    if |s| > 0 {
      assert s[0..] == s;
      assert !(|s| >= |Marker| && s[..|Marker|] == Marker);
      forall i | 0 <= i < |s[1..]|
        ensures !(Marker <= s[1..][i..])
      {
        assert s[1..][i..] == s[i + 1..];
      }
      StripMarkerFree(s[1..]);
    }
  }

  /** A string none of whose characters occurs in the marker is marker-free. */
  lemma PlainMarkerFree(s: string)
    requires Plain(s)
    ensures MarkerFree(s)
  {
    forall i | 0 <= i < |s|
      ensures !(Marker <= s[i..])
    {
      assert s[i..][0] == s[i];
      assert Marker[0] in Marker;
    }
  }

  /** If `x` does not start with the marker, neither does `x + y` across a plain boundary. */
  lemma NoMarkerAtFront(x: string, y: string)
    requires |x| > 0 && !(|x| >= |Marker| && x[..|Marker|] == Marker)
    requires x[|x| - 1] !in Marker || (|y| > 0 && y[0] !in Marker)
    ensures !(|x + y| >= |Marker| && (x + y)[..|Marker|] == Marker)
  {
    var m := |Marker|;
    if |x| >= m {
      assert (x + y)[..m] == x[..m];
    } else if x[|x| - 1] !in Marker {
      assert Marker[|x| - 1] in Marker;
      assert (x + y)[|x| - 1] != Marker[|x| - 1];
    } else {
      assert Marker[|x|] in Marker;
      assert (x + y)[|x|] != Marker[|x|];
    }
  }

  /**
   * Removal splits at a boundary where no marker can straddle it: the left part ends, or
   * the right part begins, with a character that does not occur in the marker.
   */
  lemma {:induction false} StripAppend(x: string, y: string)
    requires (|x| > 0 && x[|x| - 1] !in Marker) || (|y| > 0 && y[0] !in Marker)
    ensures StripMarkers(x + y) == StripMarkers(x) + StripMarkers(y)
    decreases |x|, 1
  {
    if |x| == 0 {
      assert x + y == y;
    } else if |x| >= |Marker| && x[..|Marker|] == Marker {
      StripAppendMarker(x, y);
    } else {
      StripAppendChar(x, y);
    }
  }

  /** `StripAppend` when `x` starts with the marker: it is removed from both sides. */
  lemma {:induction false} StripAppendMarker(x: string, y: string)
    requires (|x| > 0 && x[|x| - 1] !in Marker) || (|y| > 0 && y[0] !in Marker)
    requires |x| >= |Marker| && x[..|Marker|] == Marker
    ensures StripMarkers(x + y) == StripMarkers(x) + StripMarkers(y)
    decreases |x|, 0
  {
    var m := |Marker|;
    var rest := x[m..];
    assert (x + y)[..m] == Marker;
    assert (x + y)[m..] == rest + y;
    if |rest| == 0 {
      assert rest + y == y;
    } else {
      assert rest[|rest| - 1] == x[|x| - 1];
      StripAppend(rest, y);
    }
  }

  /** `StripAppend` when `x` does not start with the marker: its first character is kept. */
  lemma {:induction false} StripAppendChar(x: string, y: string)
    requires (|x| > 0 && x[|x| - 1] !in Marker) || (|y| > 0 && y[0] !in Marker)
    requires |x| > 0 && !(|x| >= |Marker| && x[..|Marker|] == Marker)
    ensures StripMarkers(x + y) == StripMarkers(x) + StripMarkers(y)
    decreases |x|, 0
  {
    var rest := x[1..];
    NoMarkerAtFront(x, y);
    assert (x + y)[0] == x[0];
    assert (x + y)[1..] == rest + y;
    if |rest| == 0 {
      assert rest + y == y;
    } else {
      assert rest[|rest| - 1] == x[|x| - 1];
      StripAppend(rest, y);
    }
  }



  /** The joined string begins with the first word's first character and ends with the last word's last character. */
  lemma {:induction false} JoinEnds(ws: seq<string>, sep: string)
    requires |ws| > 0
    requires forall j :: 0 <= j < |ws| ==> |ws[j]| > 0
    ensures |Join(ws, sep)| > 0
    ensures Join(ws, sep)[0] == ws[0][0]
    ensures Join(ws, sep)[|Join(ws, sep)| - 1] == ws[|ws| - 1][|ws[|ws| - 1]| - 1]
    decreases |ws|
  {
    var n := |ws|;
    if n > 1 {
      var init := ws[..n - 1];
      JoinEnds(init, sep);
      assert init[0] == ws[0];
    }
  }

  /**
   * Joining non-empty plain words with the marker and removing the markers again gives
   * the words' concatenation.
   */
  lemma {:induction false} StripJoin(ws: seq<string>)
    requires |ws| > 0
    requires forall j :: 0 <= j < |ws| ==> |ws[j]| > 0 && Plain(ws[j])
    ensures StripMarkers(Join(ws, Marker)) == Concat(ws)
    decreases |ws|
  {
    var n := |ws|;
    var last := ws[n - 1];
    if n == 1 {
      PlainMarkerFree(last);
      StripMarkerFree(last);
      assert Concat(ws) == Concat([]) + last;
    } else {
      var init := ws[..n - 1];
      StripJoin(init);
      JoinEnds(init, Marker);
      assert init[n - 2] == ws[n - 2];
      StripJoinStep(Join(init, Marker), last, Concat(init));
      assert Join(ws, Marker) == Join(init, Marker) + (Marker + last);
      assert ws == init + [last];
      ConcatSnoc(init, last);
    }
  }

  /** One more word: the marker before it is removed and the word itself is kept. */
  lemma StripJoinStep(j: string, last: string, plain: string)
    requires StripMarkers(j) == plain
    requires |j| > 0 && j[|j| - 1] !in Marker
    requires Plain(last)
    ensures StripMarkers(j + (Marker + last)) == plain + last
  {
    PlainMarkerFree(last);
    StripMarkerFree(last);
    StripAppend(j, Marker + last);
    StripLeadingMarker(last);
  }

  /** A marker at the front is removed. */
  lemma StripLeadingMarker(x: string)
    ensures StripMarkers(Marker + x) == StripMarkers(x)
  {
    assert (Marker + x)[..|Marker|] == Marker;
    assert (Marker + x)[|Marker|..] == x;
  }

  /** The marker is not a word character of any Thai text. */
  lemma ThaiPlain(s: string)
    requires forall i :: 0 <= i < |s| ==> IsThai(s[i])
    ensures Plain(s)
  {
    forall i | 0 <= i < |s|
      ensures s[i] !in Marker
    {
      ThaiNotInMarker(s[i]);
    }
  }

  /** The predictor flags position 0 of this Thai run. */
  ghost predicate MarksStart(chunk: string, predict: seq<nat> -> seq<bool>)
  {
    var e := Encode(chunk);
    e.Some? && |predict(e.value)| > 0 && predict(e.value)[0]
  }

  /**
   * A Thai run whose first position the predictor flags renders to a non-empty string whose
   * first and last characters do not occur in the marker, and from which removing the
   * markers gives the run back.
   */
  lemma RenderVisible(c: Chunk, predict: seq<nat> -> seq<bool>)
    requires SameLength(predict)
    requires Uniform(c) && c.isThai
    requires MarksStart(c.text, predict)
    ensures StripMarkers(Render(c, predict)) == c.text
    ensures |Render(c, predict)| > 0
    ensures Render(c, predict)[0] !in Marker
    ensures Render(c, predict)[|Render(c, predict)| - 1] !in Marker
  {
    var flags := predict(Encode(c.text).value);
    var ws := Words(c.text, flags);
    WordsShape(c.text, flags);
    WordsLossless(c.text, flags);
    forall j | 0 <= j < |ws|
      ensures Plain(ws[j])
    {
      forall k | 0 <= k < |ws[j]|
        ensures ws[j][k] !in Marker
      {
        var i :| 0 <= i < |c.text| && c.text[i] == ws[j][k];
        ThaiNotInMarker(c.text[i]);
      }
    }
    StripJoin(ws);
    JoinEnds(ws, Marker);
  }

  /** The hypothesis of the visible-content theorem: position 0 of every Thai run is flagged. */
  ghost predicate MarksAllStarts(cs: seq<Chunk>, predict: seq<nat> -> seq<bool>)
  {
    forall k :: 0 <= k < |cs| && cs[k].isThai ==> MarksStart(cs[k].text, predict)
  }

  /** Appending a Thai run and its rendering keeps the two texts equal once markers are removed. */
  lemma VisibleStepThai(r0: string, t0: string, rendered: string, run: string)
    requires StripMarkers(r0) == StripMarkers(t0)
    requires |rendered| > 0 && rendered[0] !in Marker && StripMarkers(rendered) == run
    requires |run| > 0 && Plain(run)
    ensures StripMarkers(r0 + rendered) == StripMarkers(t0 + run)
  {
    PlainMarkerFree(run);
    StripMarkerFree(run);
    StripAppend(r0, rendered);
    StripAppend(t0, run);
  }

  /** Appending a non-Thai run after a Thai one (both texts end in a non-marker character) keeps them equal. */
  lemma VisibleStepOther(r0: string, t0: string, run: string)
    requires StripMarkers(r0) == StripMarkers(t0)
    requires (r0 == [] && t0 == []) || (|r0| > 0 && r0[|r0| - 1] !in Marker && |t0| > 0 && t0[|t0| - 1] !in Marker)
    ensures StripMarkers(r0 + run) == StripMarkers(t0 + run)
  {
    if r0 == [] {
      assert r0 + run == t0 + run;
    } else {
      StripAppend(r0, run);
      StripAppend(t0, run);
    }
  }

  lemma {:induction false} RenderAllVisible(cs: seq<Chunk>, predict: seq<nat> -> seq<bool>)
    requires SameLength(predict)
    requires Runs(cs)
    requires MarksAllStarts(cs, predict)
    ensures forall k :: 0 <= k < |cs| ==> Labelled(cs[k])
    ensures StripMarkers(Concat(RenderAll(cs, predict))) == StripMarkers(Concat(Texts(cs)))
    decreases |cs|
  {
    RunsLabelled(cs);
    if |cs| > 0 {
      RenderAllSplit(cs, predict);
      RenderAllVisible(cs[..|cs| - 1], predict);
      VisibleSnoc(cs, predict);
    }
  }

  /** The induction step: the runs before the last one already agree once markers are removed. */
  lemma VisibleSnoc(cs: seq<Chunk>, predict: seq<nat> -> seq<bool>)
    requires SameLength(predict)
    requires Runs(cs) && |cs| > 0
    requires MarksAllStarts(cs, predict)
    requires forall k :: 0 <= k < |cs| - 1 ==> Labelled(cs[k])
    requires StripMarkers(Concat(RenderAll(cs[..|cs| - 1], predict))) == StripMarkers(Concat(Texts(cs[..|cs| - 1])))
    ensures forall k :: 0 <= k < |cs| ==> Labelled(cs[k])
    ensures StripMarkers(Concat(RenderAll(cs, predict))) == StripMarkers(Concat(Texts(cs)))
  {
    var n := |cs|;
    var init, c := cs[..n - 1], cs[n - 1];
    RenderAllSplit(cs, predict);
    var r0 := Concat(RenderAll(init, predict));
    var t0 := Concat(Texts(init));
    assert Uniform(c) && (c.isThai ==> MarksStart(c.text, predict));
    if !c.isThai {
      assert n > 1 ==> init[n - 2] == cs[n - 2] && init[n - 2].isThai;
      PlainBoundary(init, predict);
    }
    VisibleStep(r0, t0, c, predict);
  }

  /**
   * Before a non-Thai run: either nothing precedes it, or the preceding Thai run leaves
   * both the output and the text ending with a character that does not occur in the marker.
   */
  lemma PlainBoundary(cs: seq<Chunk>, predict: seq<nat> -> seq<bool>)
    requires SameLength(predict)
    requires Runs(cs) && MarksAllStarts(cs, predict)
    requires |cs| > 0 ==> cs[|cs| - 1].isThai
    ensures forall k :: 0 <= k < |cs| ==> Labelled(cs[k])
    ensures var r, t := Concat(RenderAll(cs, predict)), Concat(Texts(cs));
      (r == [] && t == []) || (|r| > 0 && r[|r| - 1] !in Marker && |t| > 0 && t[|t| - 1] !in Marker)
  {
    RunsLabelled(cs);
    if |cs| == 0 {
      assert RenderAll(cs, predict) == [] && Texts(cs) == [];
    } else {
      RenderEndsPlain(cs, predict);
      LastRunEndsPlain(cs);
    }
  }

  /** The step of the induction: appending one run, rendered and as it is. */
  lemma VisibleStep(r0: string, t0: string, c: Chunk, predict: seq<nat> -> seq<bool>)
    requires SameLength(predict) && Uniform(c)
    requires c.isThai ==> MarksStart(c.text, predict)
    requires StripMarkers(r0) == StripMarkers(t0)
    requires !c.isThai ==> (r0 == [] && t0 == []) || (|r0| > 0 && r0[|r0| - 1] !in Marker && |t0| > 0 && t0[|t0| - 1] !in Marker)
    ensures Labelled(c)
    ensures StripMarkers(r0 + Render(c, predict)) == StripMarkers(t0 + c.text)
  {
    if c.isThai {
      VisibleAppendThai(r0, t0, c, predict);
    } else {
      VisibleStepOther(r0, t0, c.text);
    }
  }

  /** Appending a Thai run whose start is flagged, rendered and as it is, keeps the two texts equal once markers are removed. */
  lemma VisibleAppendThai(r0: string, t0: string, c: Chunk, predict: seq<nat> -> seq<bool>)
    requires SameLength(predict)
    requires Uniform(c) && c.isThai && MarksStart(c.text, predict)
    requires StripMarkers(r0) == StripMarkers(t0)
    ensures StripMarkers(r0 + Render(c, predict)) == StripMarkers(t0 + c.text)
  {
    RenderVisible(c, predict);
    ThaiPlain(c.text);
    VisibleStepThai(r0, t0, Render(c, predict), c.text);
  }

  /** Splitting off the last run: both concatenations grow by that run, and the hypotheses carry over. */
  lemma RenderAllSplit(cs: seq<Chunk>, predict: seq<nat> -> seq<bool>)
    requires SameLength(predict)
    requires Runs(cs) && |cs| > 0
    requires MarksAllStarts(cs, predict)
    ensures forall k :: 0 <= k < |cs| ==> Labelled(cs[k])
    ensures Runs(cs[..|cs| - 1]) && MarksAllStarts(cs[..|cs| - 1], predict)
    ensures Concat(RenderAll(cs, predict)) == Concat(RenderAll(cs[..|cs| - 1], predict)) + Render(cs[|cs| - 1], predict)
    ensures Concat(Texts(cs)) == Concat(Texts(cs[..|cs| - 1])) + cs[|cs| - 1].text
  {
    var n := |cs|;
    var init, c := cs[..n - 1], cs[n - 1];
    RunsLabelled(cs);
    RunsInit(cs);
    MarksAllStartsInit(cs, predict);
    RenderConcatSnoc(cs, predict);
    assert cs == init + [c];
    TextsSnoc(init, c);
  }

  lemma RenderConcatSnoc(cs: seq<Chunk>, predict: seq<nat> -> seq<bool>)
    requires SameLength(predict) && |cs| > 0
    requires forall k :: 0 <= k < |cs| ==> Labelled(cs[k])
    ensures Concat(RenderAll(cs, predict)) == Concat(RenderAll(cs[..|cs| - 1], predict)) + Render(cs[|cs| - 1], predict)
  {
    var rs, r := RenderAll(cs[..|cs| - 1], predict), Render(cs[|cs| - 1], predict);
    assert RenderAll(cs, predict) == rs + [r];
    ConcatSnoc(rs, r);
  }

  lemma MarksAllStartsInit(cs: seq<Chunk>, predict: seq<nat> -> seq<bool>)
    requires |cs| > 0 && MarksAllStarts(cs, predict)
    ensures MarksAllStarts(cs[..|cs| - 1], predict)
  {
    var init := cs[..|cs| - 1];
    forall k | 0 <= k < |init| && init[k].isThai
      ensures MarksStart(init[k].text, predict)
    {
      assert init[k] == cs[k];
    }
  }

  /** The output after runs whose last run is Thai, its start flagged, ends with a character that does not occur in the marker. */
  lemma RenderEndsPlain(cs: seq<Chunk>, predict: seq<nat> -> seq<bool>)
    requires SameLength(predict)
    requires Runs(cs) && |cs| > 0 && cs[|cs| - 1].isThai
    requires MarksAllStarts(cs, predict)
    ensures forall k :: 0 <= k < |cs| ==> Labelled(cs[k])
    ensures var r := Concat(RenderAll(cs, predict)); |r| > 0 && r[|r| - 1] !in Marker
  {
    RenderAllSplit(cs, predict);
    var c := cs[|cs| - 1];
    assert Uniform(c);
    RenderVisible(c, predict);
  }

  /** Text of runs whose last run is Thai ends with a character that does not occur in the marker. */
  lemma LastRunEndsPlain(cs: seq<Chunk>)
    requires Runs(cs) && |cs| > 0 && cs[|cs| - 1].isThai
    ensures var t := Concat(Texts(cs)); |t| > 0 && t[|t| - 1] !in Marker
  {
    var n := |cs|;
    var p := cs[n - 1];
    assert Uniform(p);
    assert Texts(cs)[..n - 1] == Texts(cs[..n - 1]);
    assert Concat(Texts(cs)) == Concat(Texts(cs[..n - 1])) + p.text;
    ThaiNotInMarker(p.text[|p.text| - 1]);
  }

  /**
   * Visible content is preserved: if the predictor flags position 0 of every Thai run,
   * removing the markers from the output gives what removing them from the input gives,
   * and an input without markers comes back exactly.
   */
  lemma VisibleContent(text: string, predict: seq<nat> -> seq<bool>)
    requires SameLength(predict)
    requires MarksAllStarts(Scan(text), predict)
    ensures StripMarkers(WithBreaks(text, predict)) == StripMarkers(text)
    ensures MarkerFree(text) ==> StripMarkers(WithBreaks(text, predict)) == text
  {
    ScanRuns(text);
    RenderAllVisible(Scan(text), predict);
    if MarkerFree(text) {
      StripMarkerFree(text);
    }
  }
}
