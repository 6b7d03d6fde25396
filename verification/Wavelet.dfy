/** The multi-level Haar transform of WaveletCompressor, over reals. */
module Wavelet {
  import opened Arith

  /** n doubled k times. */
  function Size(n: nat, k: nat): (size: nat)
    ensures n <= size
  {
    if k == 0 then n else 2 * Size(n, k - 1)
  }

  lemma {:induction false} SizeIsProduct(n: nat, k: nat)
    ensures Size(n, k) == n * Pow2(k)
  {
    if k > 0 {
      SizeIsProduct(n, k - 1);
      assert n * Pow2(k) == 2 * (n * Pow2(k - 1));
    }
  }

  // ---- The transform on sequences ----------------------------------------------------------

  function Averages(x: seq<real>): (r: seq<real>)
    ensures |r| == |x| / 2
  {
    seq(|x| / 2, i requires 0 <= i < |x| / 2 => (x[2 * i] + x[2 * i + 1]) * 0.5)
  }

  function Details(x: seq<real>): (r: seq<real>)
    ensures |r| == |x| / 2
  {
    seq(|x| / 2, i requires 0 <= i < |x| / 2 => (x[2 * i] - x[2 * i + 1]) * 0.5)
  }

  /** The last element of a sequence of odd length, which has no partner. */
  function Unpaired(x: seq<real>): seq<real> { x[2 * (|x| / 2)..] }

  function Forward(x: seq<real>, levels: nat): (c: seq<real>)
    ensures |c| == |x|
    decreases levels
  {
    if levels == 0 then x else Forward(Averages(x), levels - 1) + Details(x) + Unpaired(x)
  }

  /** One inverse level over the first n coefficients, reading from an unmodified copy. */
  function Undo(c: seq<real>, n: nat): (r: seq<real>)
    requires n <= |c|
    ensures |r| == |c|
  {
    seq(|c|, i requires 0 <= i < |c| =>
      if i >= 2 * (n / 2) then c[i]
      else if i % 2 == 0 then c[i / 2] + c[n / 2 + i / 2] else c[i / 2] - c[n / 2 + i / 2])
  }

  /** The inverse transform from the coarsest level, of size n, to the finest. */
  function Backward(c: seq<real>, n: nat, levels: nat): (r: seq<real>)
    requires levels > 0 ==> Size(n, levels - 1) <= |c|
    ensures |r| == |c|
    decreases levels
  {
    if levels == 0 then c
    else
      Undo(Backward(c, n, levels - 1), Size(n, levels - 1))
  }

  // ---- The inverse as the code does it: in place -------------------------------------------

  /** The first k steps of an inverse level with `half` steps, each reading what earlier ones wrote. */
  function Overwrite(c: seq<real>, half: nat, k: nat): (r: seq<real>)
    requires k <= half && 2 * half <= |c|
    ensures |r| == |c|
    decreases k
  {
    if k == 0 then c
    else
      var p := Overwrite(c, half, k - 1);
      var avg, diff := p[k - 1], p[half + k - 1];
      p[2 * (k - 1) := avg + diff][2 * (k - 1) + 1 := avg - diff]
  }

  function InPlace(c: seq<real>, n: nat, levels: nat): (r: seq<real>)
    requires levels > 0 ==> Size(n, levels - 1) <= |c|
    ensures |r| == |c|
    decreases levels
  {
    if levels == 0 then c
    else
      Overwrite(InPlace(c, n, levels - 1), Size(n, levels - 1) / 2, Size(n, levels - 1) / 2)
  }

  lemma CoarsestFits(size: nat, levels: nat)
    requires levels > 0
    ensures var n := size / Pow2(levels - 1); n >= 0 && Size(n, levels - 1) <= size
  {
    hide *;
    DivMul(size, Pow2(levels - 1));
    SizeIsProduct(size / Pow2(levels - 1), levels - 1);
  }

  /** The size of the coarsest level, as decompress computes it. */
  function Coarsest(size: nat, levels: nat): (n: nat)
    requires levels > 0
    ensures Size(n, levels - 1) <= size
  {
    CoarsestFits(size, levels);
    size / Pow2(levels - 1)
  }

  /** It is the largest size that 2^(levels-1) times fits. */
  lemma CoarsestIs(size: nat, levels: nat)
    requires levels > 0
    ensures var n := Coarsest(size, levels);
            n * Pow2(levels - 1) <= size < (n + 1) * Pow2(levels - 1)
  {
    var p := Pow2(levels - 1);
    DivMul(size, p);
    assert (size / p + 1) * p == size / p * p + p;
  }

  // ---- The code --------------------------------------------------------------------------

  /** What compress leaves in an output vector that held `out` before. */
  function Compressed(x: seq<real>, out: seq<real>, levels: int): seq<real>
    requires |x| <= |out|
  {
    if levels <= 0 then out else Forward(x, levels)[..2 * (|x| / 2)] + out[2 * (|x| / 2)..]
  }

  /** One level of compress: averages, then details, from `temp` into `output`. */
  method CompressLevel(temp: array<real>, output: array<real>, n: nat)
    requires n <= temp.Length && n <= output.Length && temp != output
    modifies output
    ensures output[..] == Averages(temp[..n]) + Details(temp[..n]) + old(output[2 * (n / 2)..])
  {
    var half := n / 2;
    for i := 0 to half
      invariant forall j :: 0 <= j < i ==> output[j] == Averages(temp[..n])[j]
      invariant forall j :: 0 <= j < i ==> output[half + j] == Details(temp[..n])[j]
      invariant forall j :: 2 * half <= j < output.Length ==> output[j] == old(output[j])
    {
      var avg := (temp[2 * i] + temp[2 * i + 1]) * 0.5;
      var diff := (temp[2 * i] - temp[2 * i + 1]) * 0.5;
      output[i] := avg;
      output[half + i] := diff;
    }
  }

  method CopyBack(temp: array<real>, output: array<real>, n: nat)
    requires n <= temp.Length && n <= output.Length && temp != output
    modifies temp
    ensures temp[..n] == output[..n]
  {
    for i := 0 to n
      invariant temp[..i] == output[..i]
    {
      temp[i] := output[i];
    }
  }

  /** One more level peels the details off the front of what is still to transform. */
  lemma OneLevel(cur: seq<real>, done: seq<real>, levels: nat)
    requires levels > 0
    ensures Forward(cur, levels) + done == Forward(Averages(cur), levels - 1) + (Details(cur) + Unpaired(cur) + done)
  {}

  /** A level writes averages and details; an unpaired element stays, which only the first level can lose. */
  lemma Peeled(cur: seq<real>, done: seq<real>, before: seq<real>, after: seq<real>, even: nat, first: bool)
    requires |cur| <= |before| && even <= |before|
    requires after == Averages(cur) + Details(cur) + before[2 * (|cur| / 2)..]
    requires if first then even == 2 * (|cur| / 2) && done == []
             else |cur| <= even && even - |cur| <= |done| && before[..even] == cur + done[..even - |cur|]
    ensures |Averages(cur)| <= even && even - |Averages(cur)| <= |Details(cur) + Unpaired(cur) + done|
    ensures after[..even] == Averages(cur) + (Details(cur) + Unpaired(cur) + done)[..even - |Averages(cur)|]
    ensures after[even..] == before[even..]
  {
    hide Averages, Details;
    var a, d, u := Averages(cur), Details(cur), Unpaired(cur);
    if first {
      assert (d + u + done)[..even - |a|] == d;
    } else {
      assert (d + u + done)[..even - |a|] == d + u + done[..even - |cur|];
      assert before[2 * (|cur| / 2)..even] == u + done[..even - |cur|];
      assert after[..even] == a + d + before[2 * (|cur| / 2)..even];
    }
  }

  /** After l levels: `cur` is still to transform, `done` are the finished details behind it. */
  ghost predicate Partway(x: seq<real>, out0: seq<real>, levels: int, l: nat, cur: seq<real>, done: seq<real>,
                          out: seq<real>) {
    var even := 2 * (|x| / 2);
    && |x| <= |out0| == |out| && |cur| <= |x|
    && (l <= levels ==> Forward(x, levels) == Forward(cur, levels - l) + done)
    && if l == 0 then out == out0 && cur == x && done == []
       else l <= levels && |cur| <= even && even - |cur| <= |done|
            && out[..even] == cur + done[..even - |cur|] && out[even..] == out0[even..]
  }

  lemma PartwayNext(x: seq<real>, out0: seq<real>, levels: int, l: nat, cur: seq<real>, done: seq<real>,
                    out: seq<real>, after: seq<real>)
    requires Partway(x, out0, levels, l, cur, done, out) && l < levels
    requires after == Averages(cur) + Details(cur) + out[2 * (|cur| / 2)..]
    ensures Partway(x, out0, levels, l + 1, Averages(cur), Details(cur) + Unpaired(cur) + done, after)
    ensures after[..|cur| / 2] == Averages(cur)
  {
    hide Forward, Averages, Details, Unpaired;
    OneLevel(cur, done, levels - l);
    Peeled(cur, done, out, after, 2 * (|x| / 2), l == 0);
  }

  lemma PartwayEnds(x: seq<real>, out0: seq<real>, levels: int, l: nat, cur: seq<real>, done: seq<real>, out: seq<real>)
    requires Partway(x, out0, levels, l, cur, done, out) && levels <= l
    ensures out == Compressed(x, out0, levels)
  {
    var even := 2 * (|x| / 2);
    if l > 0 {
      NoLevels(cur);
      assert (cur + done)[..even] == cur + done[..even - |cur|];
      assert out == out[..even] + out[even..];
    }
  }

  /** One turn of compress's loop. */
  method NextLevel(input: seq<real>, temp: array<real>, output: array<real>, n: nat, levels: int, ghost l: nat,
                   ghost out0: seq<real>, ghost cur: seq<real>, ghost done: seq<real>)
    requires n == |cur| <= temp.Length && n <= output.Length && temp != output && temp[..n] == cur
    requires l < levels && Partway(input, out0, levels, l, cur, done, output[..])
    modifies temp, output
    ensures temp[..n / 2] == Averages(cur)
    ensures Partway(input, out0, levels, l + 1, Averages(cur), Details(cur) + Unpaired(cur) + done, output[..])
  {
    hide *;
    ghost var before := output[..];
    CompressLevel(temp, output, n);
    ghost var after := output[..];
    PartwayNext(input, out0, levels, l, cur, done, before, after);
    CopyBack(temp, output, n);
    assert temp[..n / 2] == temp[..n][..n / 2];
    assert after[..n][..n / 2] == after[..n / 2];
  }

  method Compress(input: seq<real>, output: array<real>, levels: int)
    requires |input| <= output.Length
    modifies output
    ensures output[..] == Compressed(input, old(output[..]), levels)
    ensures output[2 * (|input| / 2)..] == old(output[2 * (|input| / 2)..])
    ensures levels <= 0 ==> output[..] == old(output[..])
  {
    hide *;
    ghost var out0 := output[..];
    var temp := new real[|input|](i requires 0 <= i < |input| => input[i]);
    var n := |input|;
    ghost var cur, done := input, [];
    var l := 0;
    PartwayStarts(input, out0, levels);
    while l < levels
      invariant 0 <= l && |cur| == n <= temp.Length && temp[..n] == cur
      invariant Partway(input, out0, levels, l, cur, done, output[..])
    {
      NextLevel(input, temp, output, n, levels, l, out0, cur, done);
      cur, done := Averages(cur), Details(cur) + Unpaired(cur) + done;
      n := n / 2;
      l := l + 1;
    }
    PartwayEnds(input, out0, levels, l, cur, done, output[..]);
    CompressedKeeps(input, out0, levels);
    ghost var even := 2 * (|input| / 2);
    assert output[even..] == output[..][even..] && old(output[even..]) == out0[even..];
  }

  /** Nothing behind the pairs of the input is written, and nothing at all without a level. */
  lemma CompressedKeeps(x: seq<real>, out: seq<real>, levels: int)
    requires |x| <= |out|
    ensures |Compressed(x, out, levels)| == |out|
    ensures Compressed(x, out, levels)[2 * (|x| / 2)..] == out[2 * (|x| / 2)..]
    ensures levels <= 0 ==> Compressed(x, out, levels) == out
  {
    hide Forward;
  }

  lemma PartwayStarts(x: seq<real>, out0: seq<real>, levels: int)
    requires |x| <= |out0|
    ensures Partway(x, out0, levels, 0, x, [], out0)
  {
    hide Forward;
    if 0 <= levels { assert Forward(x, levels) + [] == Forward(x, levels); }
  }

  lemma NoLevels(x: seq<real>)
    ensures Forward(x, 0) == x
  {}

  lemma {:induction false} SizeFits(n: nat, l: nat, levels: nat)
    requires l < levels
    ensures Size(n, l) <= Size(n, levels - 1)
    decreases levels - l
  {
    if l < levels - 1 {
      SizeFits(n, l + 1, levels);
    }
  }

  /** One inverse level of decompress, in place. */
  method DecompressLevel(output: array<real>, half: nat)
    requires 2 * half <= output.Length
    modifies output
    ensures output[..] == Overwrite(old(output[..]), half, half)
  {
    for i := 0 to half
      invariant output[..] == Overwrite(old(output[..]), half, i)
    {
      var avg := output[i];
      var diff := output[half + i];
      output[2 * i] := avg + diff;
      output[2 * i + 1] := avg - diff;
    }
  }

  method Decompress(input: seq<real>, levels: int) returns (output: array<real>)
    requires 1 <= levels
    ensures fresh(output) && output[..] == InPlace(input, Coarsest(|input|, levels), levels)
  {
    hide InPlace, Overwrite, Pow2;
    var n := Coarsest(|input|, levels);
    ghost var coarsest := n;
    output := new real[|input|](i requires 0 <= i < |input| => input[i]);
    InPlaceStarts(input, n);
    SizeFits(coarsest, 0, levels);
    for l := 0 to levels
      invariant n == Size(coarsest, l) && (l < levels ==> n <= |input|)
      invariant l > 0 ==> Size(coarsest, l - 1) <= |input|
      invariant output.Length == |input| && output[..] == InPlace(input, coarsest, l)
    {
      InPlaceStep(input, coarsest, l);
      DecompressLevel(output, n / 2);
      if l + 1 < levels { SizeFits(coarsest, l + 1, levels); }
      n := n * 2;
    }
  }

  lemma InPlaceStarts(c: seq<real>, n: nat)
    ensures InPlace(c, n, 0) == c && Size(n, 0) == n
  {}

  lemma InPlaceStep(c: seq<real>, n: nat, l: nat)
    requires (l > 0 ==> Size(n, l - 1) <= |c|) && Size(n, l) <= |c|
    ensures InPlace(c, n, l + 1) == Overwrite(InPlace(c, n, l), Size(n, l) / 2, Size(n, l) / 2)
    ensures Size(n, l + 1) == Size(n, l) * 2
  {}
}
