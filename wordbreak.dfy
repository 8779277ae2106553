/**
 * `break_word` (main.py:19-31): label a Thai run, ask the word-boundary predictor for
 * split flags, cut the run at every flagged position and drop the first piece.
 */
module WordBreak {
  import opened Wrappers
  import opened Strings
  import opened Labels

  /** The predictor answers with one flag per input label. */
  ghost predicate SameLength(predict: seq<nat> -> seq<bool>)
  {
    forall xs :: |predict(xs)| == |xs|
  }

  /** Cut points that can slice `s`: in range and never decreasing. */
  predicate Cuts(s: string, cuts: seq<nat>)
  {
    && |cuts| > 0
    && (forall j :: 0 <= j < |cuts| ==> cuts[j] <= |s|)
    && (forall i, j :: 0 <= i <= j < |cuts| ==> cuts[i] <= cuts[j])
  }

  /** The slices of `s` between consecutive cut points. */
  function Pieces(s: string, cuts: seq<nat>): seq<string>
    requires Cuts(s, cuts)
  {
    seq(|cuts| - 1, j requires 0 <= j < |cuts| - 1 => s[cuts[j]..cuts[j + 1]])
  }

  /** The pieces between consecutive cut points spell out the text between the first and last cut. */
  lemma {:induction false} PiecesConcat(s: string, cuts: seq<nat>)
    requires Cuts(s, cuts)
    ensures Concat(Pieces(s, cuts)) == s[cuts[0]..cuts[|cuts| - 1]]
    decreases |cuts|
  {
    var m := |cuts|;
    if m > 1 {
      var init := cuts[..m - 1];
      PiecesConcat(s, init);
      assert Pieces(s, cuts)[..m - 2] == Pieces(s, init);
      assert s[cuts[0]..cuts[m - 1]] == s[cuts[0]..cuts[m - 2]] + s[cuts[m - 2]..cuts[m - 1]];
    }
  }

  /** The positions of the true flags, in increasing order. */
  function TrueIndices(flags: seq<bool>): (r: seq<nat>)
    ensures forall j :: 0 <= j < |r| ==> r[j] < |flags|
  {
    if |flags| == 0 then []
    else TrueIndices(flags[..|flags| - 1]) + (if flags[|flags| - 1] then [|flags| - 1] else [])
  }

  /** `TrueIndices` drops its last flag's contribution with the last flag. */
  lemma TrueIndicesInit(flags: seq<bool>)
    requires |flags| > 0
    ensures TrueIndices(flags) == TrueIndices(flags[..|flags| - 1]) + (if flags[|flags| - 1] then [|flags| - 1] else [])
  {
  }

  /** Every true index points at a true flag. */
  lemma {:induction false} TrueIndicesFlagged(flags: seq<bool>)
    ensures forall j :: 0 <= j < |TrueIndices(flags)| ==> flags[TrueIndices(flags)[j]]
  {
    if |flags| > 0 {
      var n := |flags| - 1;
      var init := flags[..n];
      TrueIndicesFlagged(init);
      TrueIndicesInit(flags);
      var r0, r := TrueIndices(init), TrueIndices(flags);
      forall j | 0 <= j < |r|
        ensures flags[r[j]]
      {
        if j < |r0| {
          assert r[j] == r0[j] && flags[r0[j]] == init[r0[j]];
        }
      }
    }
  }

  /** The true indices strictly increase. */
  lemma {:induction false} TrueIndicesIncreasing(flags: seq<bool>)
    ensures forall j, k :: 0 <= j < k < |TrueIndices(flags)| ==> TrueIndices(flags)[j] < TrueIndices(flags)[k]
  {
    if |flags| > 0 {
      var n := |flags| - 1;
      var init := flags[..n];
      TrueIndicesIncreasing(init);
      TrueIndicesInit(flags);
      var r0, r := TrueIndices(init), TrueIndices(flags);
      forall j, k | 0 <= j < k < |r|
        ensures r[j] < r[k]
      {
        assert r[j] == r0[j];
        if k < |r0| {
          assert r[k] == r0[k];
        }
      }
    }
  }

  /** Every true flag has its position among the true indices. */
  lemma {:induction false} TrueIndicesComplete(flags: seq<bool>)
    ensures forall i :: 0 <= i < |flags| && flags[i] ==> i in TrueIndices(flags)
  {
    if |flags| > 0 {
      var n := |flags| - 1;
      var init := flags[..n];
      TrueIndicesComplete(init);
      TrueIndicesInit(flags);
      var r0, r := TrueIndices(init), TrueIndices(flags);
      forall i | 0 <= i < |flags| && flags[i]
        ensures i in r
      {
        if i < n {
          assert init[i];
          assert i in r0;
        } else {
          assert r[|r| - 1] == n;
        }
      }
    }
  }

  /** There is one true index per true flag. */
  lemma {:induction false} TrueIndicesCount(flags: seq<bool>)
    ensures |TrueIndices(flags)| == multiset(flags)[true]
  {
    if |flags| > 0 {
      var init := flags[..|flags| - 1];
      TrueIndicesCount(init);
      assert flags == init + [flags[|flags| - 1]];
    }
  }

  /** The words `break_word` returns for flags `flags`: from each flagged position to the next one, the last word to the end. */
  function Words(chunk: string, flags: seq<bool>): seq<string>
    requires |flags| == |chunk|
  {
    var t := TrueIndices(flags);
    TrueIndicesIncreasing(flags);
    assert Cuts(chunk, t + [|chunk|]);
    Pieces(chunk, t + [|chunk|])
  }

  /** One word per true flag, none empty, each made of characters of the chunk. */
  lemma WordsShape(chunk: string, flags: seq<bool>)
    requires |flags| == |chunk|
    ensures |Words(chunk, flags)| == multiset(flags)[true]
    ensures forall j :: 0 <= j < |Words(chunk, flags)| ==> |Words(chunk, flags)[j]| > 0
    ensures forall j, k :: 0 <= j < |Words(chunk, flags)| && 0 <= k < |Words(chunk, flags)[j]| ==> Words(chunk, flags)[j][k] in chunk
  {
    TrueIndicesCount(flags);
    TrueIndicesIncreasing(flags);
    var t := TrueIndices(flags);
    var w := Words(chunk, flags);
    forall j, k | 0 <= j < |w| && 0 <= k < |w[j]|
      ensures w[j][k] in chunk
    {
      var hi := if j + 1 < |t| then t[j + 1] else |chunk|;
      assert w[j] == chunk[t[j]..hi];
      assert w[j][k] == chunk[t[j] + k];
    }
  }

  /**
   * Everything before the first flagged position is lost: the words spell out the chunk
   * from its first true flag on, and no true flag at all gives no words.
   */
  lemma WordsFromFirstFlag(chunk: string, flags: seq<bool>, first: nat)
    requires |flags| == |chunk|
    requires first < |flags| && flags[first]
    requires forall i :: 0 <= i < first ==> !flags[i]
    ensures Concat(Words(chunk, flags)) == chunk[first..]
  {
    var t := TrueIndices(flags);
    TrueIndicesFlagged(flags);
    TrueIndicesIncreasing(flags);
    TrueIndicesComplete(flags);
    assert first in t;
    assert t[0] == first;
    PiecesConcat(chunk, t + [|chunk|]);
  }

  /** With no true flag there are no words. */
  lemma WordsNoFlag(chunk: string, flags: seq<bool>)
    requires |flags| == |chunk|
    requires forall i :: 0 <= i < |flags| ==> !flags[i]
    ensures Words(chunk, flags) == []
  {
    TrueIndicesCount(flags);
    assert true !in flags;
    assert multiset(flags)[true] == 0;
  }

  /** When the predictor flags position 0, dropping the first piece loses nothing. */
  lemma WordsLossless(chunk: string, flags: seq<bool>)
    requires |flags| == |chunk| > 0
    requires flags[0]
    ensures Concat(Words(chunk, flags)) == chunk
    ensures |Words(chunk, flags)| > 0
  {
    WordsFromFirstFlag(chunk, flags, 0);
    TrueIndicesComplete(flags);
    assert 0 in TrueIndices(flags);
  }

  lemma PiecesSnoc(s: string, cuts: seq<nat>, x: nat)
    requires Cuts(s, cuts) && cuts[|cuts| - 1] <= x <= |s|
    ensures Cuts(s, cuts + [x])
    ensures Pieces(s, cuts + [x]) == Pieces(s, cuts) + [s[cuts[|cuts| - 1]..x]]
  {
  }

  lemma CutsDropFirst(s: string, a: nat, cuts: seq<nat>)
    requires Cuts(s, [a] + cuts) && |cuts| > 0
    ensures Cuts(s, cuts)
  {
    var c := [a] + cuts;
    assert forall j :: 0 <= j < |cuts| ==> cuts[j] == c[j + 1];
  }

  lemma PiecesDropFirst(s: string, a: nat, cuts: seq<nat>)
    requires Cuts(s, [a] + cuts) && |cuts| > 0
    ensures Cuts(s, cuts)
    ensures Pieces(s, [a] + cuts)[1..] == Pieces(s, cuts)
  {
    CutsDropFirst(s, a, cuts);
    var c := [a] + cuts;
    var p, q := Pieces(s, c)[1..], Pieces(s, cuts);
    forall j | 0 <= j < |q|
      ensures p[j] == q[j]
    {
      assert c[j + 1] == cuts[j] && c[j + 2] == cuts[j + 1];
    }
  }

  lemma TrueIndicesStep(flags: seq<bool>, idx: nat)
    requires idx < |flags|
    ensures TrueIndices(flags[..idx + 1]) == TrueIndices(flags[..idx]) + (if flags[idx] then [idx] else [])
  {
    assert flags[..idx + 1][..idx] == flags[..idx];
  }

  /** The loop of `break_word` (lines 23-31) over the predictor's flags. */
  method SplitAtFlags(chunk: string, flags: seq<bool>) returns (words: seq<string>)
    requires |flags| == |chunk|
    ensures words == Words(chunk, flags)
  {
    var out: seq<string> := [];
    var start := 0;
    ghost var cuts: seq<nat> := [0];
    for idx := 0 to |flags|
      invariant cuts == [0] + TrueIndices(flags[..idx])
      invariant Cuts(chunk, cuts)
      invariant start == cuts[|cuts| - 1] <= idx
      invariant |chunk| > 0 ==> start < |chunk|
      invariant out == Pieces(chunk, cuts)
    {
      SplitStep(chunk, flags, idx, cuts);
      if flags[idx] {
        out := out + [chunk[start..idx]];
        start := idx;
        cuts := cuts + [idx];
      }
    }
    assert flags[..|flags|] == flags;
    if start != |chunk| {
      out := out + [chunk[start..]];
    }
    words := if |out| > 0 then out[1..] else [];
    DropFirstPiece(chunk, flags, cuts, start, out, words);
  }

  /** One iteration of the loop: a true flag at `idx` closes the current piece there. */
  lemma SplitStep(chunk: string, flags: seq<bool>, idx: nat, cuts: seq<nat>)
    requires |flags| == |chunk| && idx < |flags|
    requires cuts == [0] + TrueIndices(flags[..idx]) && Cuts(chunk, cuts)
    requires cuts[|cuts| - 1] <= idx
    ensures !flags[idx] ==> cuts == [0] + TrueIndices(flags[..idx + 1])
    ensures flags[idx] ==> cuts + [idx] == [0] + TrueIndices(flags[..idx + 1]) && Cuts(chunk, cuts + [idx])
    ensures flags[idx] ==> Pieces(chunk, cuts + [idx]) == Pieces(chunk, cuts) + [chunk[cuts[|cuts| - 1]..idx]]
  {
    TrueIndicesStep(flags, idx);
    PiecesSnoc(chunk, cuts, idx);
  }

  /** After the loop: the final piece is appended and the first piece dropped. */
  lemma DropFirstPiece(chunk: string, flags: seq<bool>, cuts: seq<nat>, start: nat, out: seq<string>, words: seq<string>)
    requires |flags| == |chunk|
    requires cuts == [0] + TrueIndices(flags) && Cuts(chunk, cuts)
    requires start == cuts[|cuts| - 1]
    requires |chunk| > 0 ==> start < |chunk|
    requires out == if start != |chunk| then Pieces(chunk, cuts) + [chunk[start..]] else Pieces(chunk, cuts)
    requires words == if |out| > 0 then out[1..] else []
    ensures words == Words(chunk, flags)
  {
    var t := TrueIndices(flags);
    if start != |chunk| {
      PiecesSnoc(chunk, cuts, |chunk|);
      assert chunk[start..|chunk|] == chunk[start..];
      assert out == Pieces(chunk, cuts + [|chunk|]);
      assert cuts + [|chunk|] == [0] + (t + [|chunk|]);
      PiecesDropFirst(chunk, 0, t + [|chunk|]);
      assert words == Pieces(chunk, t + [|chunk|]);
    } else {
      assert chunk == [] && t == [];
    }
  }

  /** `break_word` on a chunk, the predictor given as a function; `None` where the label lookup raises. */
  method BreakWord(chunk: string, predict: seq<nat> -> seq<bool>) returns (r: Option<seq<string>>)
    requires SameLength(predict)
    ensures r.None? <==> exists i :: 0 <= i < |chunk| && chunk[i] !in Dictionary
    ensures r.Some? ==> Encode(chunk).Some? && r.value == Words(chunk, predict(Encode(chunk).value))
  {
    EncodeLabels(chunk);
    var inputs := Encode(chunk);
    if inputs.None? {
      return None;
    }
    var outputs := predict(inputs.value);
    var words := SplitAtFlags(chunk, outputs);
    return Some(words);
  }
}
