/** String concatenation as Python's `str.join` performs it. */
module Strings {

  /** `''.join(ss)`: the pieces one after the other. */
  function Concat(ss: seq<string>): string
  {
    if |ss| == 0 then [] else Concat(ss[..|ss| - 1]) + ss[|ss| - 1]
  }

  /** Appending a piece appends its text. */
  lemma ConcatSnoc(ss: seq<string>, x: string)
    ensures Concat(ss + [x]) == Concat(ss) + x
  {
    assert (ss + [x])[..|ss|] == ss;
  }

  /** Joining two lists of pieces concatenates their joins. */
  lemma {:induction false} ConcatAppend(a: seq<string>, b: seq<string>)
    ensures Concat(a + b) == Concat(a) + Concat(b)
    decreases |b|
  {
    if |b| == 0 {
      assert a + b == a;
    } else {
      var init := b[..|b| - 1];
      assert (a + b)[..|a + b| - 1] == a + init;
      ConcatAppend(a, init);
    }
  }

  /** `sep.join(ss)`: the pieces with `sep` between neighbours. */
  function Join(ss: seq<string>, sep: string): string
  {
    if |ss| == 0 then []
    else if |ss| == 1 then ss[0]
    else Join(ss[..|ss| - 1], sep) + sep + ss[|ss| - 1]
  }

  /** `sep.join` adds exactly one separator between each pair of neighbouring pieces. */
  lemma {:induction false} JoinLength(ss: seq<string>, sep: string)
    requires |ss| > 0
    ensures |Join(ss, sep)| == |Concat(ss)| + (|ss| - 1) * |sep|
  {
    if |ss| > 1 {
      var init := ss[..|ss| - 1];
      JoinLength(init, sep);
      assert (|ss| - 1) * |sep| == (|init| - 1) * |sep| + |sep|;
    } else {
      assert ss[..0] == [];
    }
  }
}
