/** What compress and decompress do to each other, and what the transform conserves. */
module WaveletLaws {
  import opened Arith
  import opened Wavelet

  // ---- Inverse levels that read from an unmodified copy ---------------------------------------

  lemma UndoLevel(x: seq<real>, rest: seq<real>)
    ensures Undo(Averages(x) + Details(x) + Unpaired(x) + rest, |x|) == x + rest
  {
    var c := Averages(x) + Details(x) + Unpaired(x) + rest;
    var r := Undo(c, |x|);
    forall i | 0 <= i < |r|
      ensures r[i] == (x + rest)[i]
    {
      if i < 2 * (|x| / 2) {
        assert c[i / 2] == Averages(x)[i / 2] && c[|x| / 2 + i / 2] == Details(x)[i / 2];
      }
    }
  }

  /** The size of the averages, one level down. */
  lemma HalfSize(x: seq<real>, n: nat, levels: nat)
    requires levels > 1 && |x| == Size(n, levels - 1)
    ensures |Averages(x)| == Size(n, levels - 2) && |x| == 2 * |Averages(x)| && Unpaired(x) == []
  {}

  lemma {:induction false} BackwardForward(x: seq<real>, rest: seq<real>, n: nat, levels: nat)
    requires levels > 0 && |x| == Size(n, levels - 1)
    ensures Backward(Forward(x, levels) + rest, n, levels) == x + rest
    decreases levels
  {
    var a, d := Averages(x), Details(x);
    if levels == 1 {
      assert Forward(x, 1) + rest == a + d + Unpaired(x) + rest;
      assert Backward(Forward(x, 1) + rest, n, 0) == Forward(x, 1) + rest;
    } else {
      HalfSize(x, n, levels);
      assert Forward(x, levels) + rest == Forward(a, levels - 1) + (d + Unpaired(x) + rest);
      BackwardForward(a, d + Unpaired(x) + rest, n, levels - 1);
      assert a + (d + Unpaired(x) + rest) == a + d + Unpaired(x) + rest;
    }
    UndoLevel(x, rest);
  }

  /** What decompress would return if each inverse level read from an unmodified copy. */
  function CopyDecompressed(c: seq<real>, levels: nat): seq<real>
    requires levels > 0
  {
    Backward(c, Coarsest(|c|, levels), levels)
  }

  predicate Divides(levels: nat, size: nat)
    requires levels > 0
  {
    size % 2 == 0 && Mod(size, Pow2(levels - 1)) == 0
  }

  lemma CoarsestExact(size: nat, levels: nat)
    requires levels > 0 && Mod(size, Pow2(levels - 1)) == 0
    ensures size == Size(Coarsest(size, levels), levels - 1)
  {
    SizeIsProduct(Coarsest(size, levels), levels - 1);
  }

  /** The round trip: every sequence of a length that is even and divisible by 2^(levels-1) comes back. */
  lemma RoundTrip(x: seq<real>, out: seq<real>, levels: nat)
    requires levels > 0 && |out| == |x| && Divides(levels, |x|)
    ensures CopyDecompressed(Compressed(x, out, levels), levels) == x
  {
    CoarsestExact(|x|, levels);
    assert Compressed(x, out, levels) == Forward(x, levels) + [];
    BackwardForward(x, [], Coarsest(|x|, levels), levels);
    assert x + [] == x;
  }

  /** An inverse transform leaves the coefficients behind its finest level alone. */
  lemma {:induction false} BackwardKeeps(c: seq<real>, n: nat, levels: nat, i: nat)
    requires levels > 0 && 2 * (Size(n, levels - 1) / 2) <= i < |c| && Size(n, levels - 1) <= |c|
    ensures Backward(c, n, levels)[i] == c[i]
    decreases levels
  {
    if levels > 1 {
      BackwardKeeps(c, n, levels - 1, i);
    } else {
      assert Backward(c, n, 0) == c;
    }
  }

  /** The zero sequence but for one element. */
  function Spike(n: nat, k: nat, value: real): (x: seq<real>)
    ensures |x| == n
  {
    seq(n, i => if i == k then value else 0.0)
  }

  /** Other lengths lose something: an odd one its last element, an even one its last detail. */
  lemma SomeSignalLost(out: seq<real>, levels: nat) returns (x: seq<real>)
    requires levels > 0 && !Divides(levels, |out|)
    ensures |x| == |out| && CopyDecompressed(Compressed(x, out, levels), levels) != x
  {
    hide *;
    var size := |out|;
    NotReached(size, levels);
    x := Lost(out, levels);
    BackwardKeeps(Compressed(x, out, levels), Coarsest(size, levels), levels, size - 1);
    CopyDecompressedIs(Compressed(x, out, levels), levels);
  }

  lemma CopyDecompressedIs(c: seq<real>, levels: nat)
    requires levels > 0
    ensures CopyDecompressed(c, levels) == Backward(c, Coarsest(|c|, levels), levels)
  {}

  lemma Lost(out: seq<real>, levels: nat) returns (x: seq<real>)
    requires levels > 0 && out != []
    ensures |x| == |out| == |Compressed(x, out, levels)| && Compressed(x, out, levels)[|x| - 1] != x[|x| - 1]
  {
    var size := |out|;
    if size % 2 == 1 {
      x := Spike(size, size - 1, out[size - 1] + 1.0);
    } else {
      x := Spike(size, size - 2, 1.0);
      LastDetail(x, levels);
    }
    hide Forward;
  }

  lemma LastDetail(x: seq<real>, levels: nat)
    requires levels > 0 && |x| >= 2 && |x| % 2 == 0
    ensures Forward(x, levels)[|x| - 1] == (x[|x| - 2] - x[|x| - 1]) * 0.5
  {
    var f, d := Forward(Averages(x), levels - 1), Details(x);
    assert Unpaired(x) == [];
    assert Forward(x, levels) == f + d;
    assert (f + d)[|x| - 1] == d[|x| / 2 - 1];
  }

  /** The finest inverse level does not reach the last element of such a length. */
  lemma NotReached(size: nat, levels: nat)
    requires levels > 0 && !Divides(levels, size)
    ensures size > 0 && 2 * (Size(Coarsest(size, levels), levels - 1) / 2) <= size - 1
  {
    SizeIsProduct(Coarsest(size, levels), levels - 1);
  }

  /** The exact lengths: all sequences come back if and only if the length is even and divisible by 2^(levels-1). */
  lemma RoundTripIff(out: seq<real>, levels: nat)
    requires levels > 0
    ensures (forall x: seq<real> :: |x| == |out| ==> CopyDecompressed(Compressed(x, out, levels), levels) == x)
            <==> Divides(levels, |out|)
  {
    if Divides(levels, |out|) {
      forall x: seq<real> | |x| == |out|
        ensures CopyDecompressed(Compressed(x, out, levels), levels) == x
      {
        RoundTrip(x, out, levels);
      }
    } else {
      var x := SomeSignalLost(out, levels);
    }
  }

  // ---- The inverse as written: each level in place ----------------------------------------------

  /** Elements 2i and 2i+1 are made from element i of the result itself and from the i-th detail. */
  predicate SelfMade(c: seq<real>, half: nat, r: seq<real>, i: nat)
    requires |r| == |c| && 2 * half <= |c| && i < half
  {
    r[2 * i] == r[i] + c[half + i] && r[2 * i + 1] == r[i] - c[half + i]
  }

  /**
   An in-place level finds every detail unchanged, but from the second step on reads as its average
   the element it has itself written at that place.
   */
  lemma {:induction false} OverwriteReads(c: seq<real>, half: nat, k: nat)
    requires k <= half && 2 * half <= |c|
    ensures var r := Overwrite(c, half, k);
            && (forall j :: 2 * k <= j < |c| ==> r[j] == c[j])
            && (k > 0 ==> r[0] == c[0] + c[half] && r[1] == c[0] - c[half])
            && (forall i :: 1 <= i < k ==> SelfMade(c, half, r, i))
  {
    if k > 0 {
      OverwriteReads(c, half, k - 1);
      var p, r := Overwrite(c, half, k - 1), Overwrite(c, half, k);
      assert forall j :: 0 <= j < |c| && j != 2 * (k - 1) && j != 2 * (k - 1) + 1 ==> r[j] == p[j];
      forall i | 1 <= i < k
        ensures SelfMade(c, half, r, i)
      {
        if i < k - 1 {
          assert SelfMade(c, half, p, i);
        }
      }
    }
  }

  /** Whatever a level makes of the rest, its first element is right, and coarser details stay. */
  lemma {:induction false} InPlaceFront(x: seq<real>, rest: seq<real>, n: nat, levels: nat)
    requires levels > 0 && |x| == Size(n, levels - 1) && x != []
    ensures var r := InPlace(Forward(x, levels) + rest, n, levels);
            r[0] == x[0] && r[|x|..] == rest
    decreases levels, 1
  {
    var c := Forward(x, levels) + rest;
    var half := |x| / 2;
    var p := InPlace(c, n, levels - 1);
    BeforeFinest(x, rest, n, levels);
    assert InPlace(c, n, levels) == Overwrite(p, half, half);
    OverwriteReads(p, half, half);
    hide InPlace, Forward, Overwrite, Size, SelfMade;
    assert half > 0 ==> p[half] == Details(x)[0];
    assert p[|x|..] == p[half..][|x| - half..];
  }

  /** Before the finest in-place level: the first average is right, and so is all behind the averages. */
  lemma {:induction false} BeforeFinest(x: seq<real>, rest: seq<real>, n: nat, levels: nat)
    requires levels > 0 && |x| == Size(n, levels - 1) && x != []
    ensures var p := InPlace(Forward(x, levels) + rest, n, levels - 1);
            var half := |x| / 2;
            p[half..] == Details(x) + Unpaired(x) + rest && (half > 0 ==> p[0] == Averages(x)[0])
    decreases levels, 0
  {
    var a, d := Averages(x), Details(x);
    assert Forward(x, levels) + rest == Forward(a, levels - 1) + (d + Unpaired(x) + rest);
    if levels == 1 {
      assert InPlace(Forward(x, 1) + rest, n, 0) == a + (d + Unpaired(x) + rest);
    } else {
      HalfSize(x, n, levels);
      InPlaceFront(a, d + Unpaired(x) + rest, n, levels - 1);
    }
  }

  // ---- The exact condition --------------------------------------------------------------------

  /** Every element i, from the second on, is the average of elements 2i and 2i+1. */
  predicate SelfSimilar(x: seq<real>) {
    forall i :: 1 <= i < |x| / 2 ==> IsAverage(x, i)
  }

  predicate IsAverage(x: seq<real>, i: nat)
    requires i < |x| / 2
  {
    2.0 * x[i] == x[2 * i] + x[2 * i + 1]
  }

  /** If the finest level's result is right up to i, its elements 2i and 2i+1 are right iff x[i] is their average. */
  lemma {:induction false} RightUpTo(x: seq<real>, p: seq<real>, r: seq<real>, j: nat)
    requires |p| == |r| == |x| && |x| % 2 == 0 && SelfSimilar(x) && j < |x|
    requires var half := |x| / 2; p[half..] == Details(x) && p[0] == Averages(x)[0]
    requires var half := |x| / 2; r[0] == p[0] + p[half] && r[1] == p[0] - p[half]
    requires var half := |x| / 2; forall i :: 1 <= i < half ==> SelfMade(p, half, r, i)
    ensures r[j] == x[j]
    decreases j
  {
    var half, i := |x| / 2, j / 2;
    assert p[half + i] == Details(x)[i];
    if i > 0 {
      assert IsAverage(x, i) && SelfMade(p, half, r, i);
      RightUpTo(x, p, r, i);
    }
  }

  /**
   decompress as written returns the original, for any number of levels, exactly for those sequences
   whose every element but the first is the average of the pair at twice its index.
   */
  lemma InPlaceRoundTripIff(x: seq<real>, out: seq<real>, levels: nat)
    requires levels > 0 && |out| == |x| && Divides(levels, |x|)
    ensures InPlace(Compressed(x, out, levels), Coarsest(|x|, levels), levels) == x <==> SelfSimilar(x)
  {
    var n, half := Coarsest(|x|, levels), |x| / 2;
    CoarsestExact(|x|, levels);
    assert Compressed(x, out, levels) == Forward(x, levels) + [];
    if x != [] {
      var c := Forward(x, levels) + [];
      var p := InPlace(c, n, levels - 1);
      BeforeFinest(x, [], n, levels);
      hide Forward, Details;
      assert p[half..] == Details(x);
      OverwriteReads(p, half, half);
      assert InPlace(c, n, levels) == Overwrite(p, half, half);
      FinestExact(x, p, InPlace(c, n, levels));
    }
  }

  lemma FinestExact(x: seq<real>, p: seq<real>, r: seq<real>)
    requires |p| == |r| == |x| && |x| % 2 == 0 && x != []
    requires var half := |x| / 2; p[half..] == Details(x) && p[0] == Averages(x)[0]
    requires var half := |x| / 2; r[0] == p[0] + p[half] && r[1] == p[0] - p[half]
    requires var half := |x| / 2; forall i :: 1 <= i < half ==> SelfMade(p, half, r, i)
    ensures r == x <==> SelfSimilar(x)
  {
    var half := |x| / 2;
    if SelfSimilar(x) {
      forall j | 0 <= j < |x| ensures r[j] == x[j] { RightUpTo(x, p, r, j); }
    } else {
      var i :| 1 <= i < half && !IsAverage(x, i);
      assert SelfMade(p, half, r, i) && p[half + i] == Details(x)[i];
    }
  }

  // ---- decompress as written, on any coefficients ------------------------------------------------

  /** The first average and the first detail of each level. */
  function FrontValue(c: seq<real>, n: nat, levels: nat): real
    requires c != [] && (levels > 0 ==> Size(n, levels - 1) <= |c|)
    decreases levels
  {
    if levels == 0 then c[0]
    else
      var half := Size(n, levels - 1) / 2;
      FrontValue(c, n, levels - 1) + if half > 0 then c[half] else 0.0
  }

  /** Where an in-place level stops writing. */
  function Written(n: nat, levels: nat): nat {
    if levels == 0 then 0 else 2 * (Size(n, levels - 1) / 2)
  }

  lemma WrittenGrows(n: nat, levels: nat, size: nat)
    requires levels > 0 && Size(n, levels - 1) <= size
    ensures levels > 1 ==> Size(n, levels - 2) <= size
    ensures Written(n, levels - 1) <= Size(n, levels - 1) / 2 && Written(n, levels) == 2 * (Size(n, levels - 1) / 2)
  {}

  /** In-place levels leave what is behind their finest level, and put the front value in front. */
  lemma {:induction false} InPlaceEnds(c: seq<real>, n: nat, levels: nat)
    requires levels > 0 ==> Size(n, levels - 1) <= |c|
    ensures var r := InPlace(c, n, levels);
            && (c != [] ==> r[0] == FrontValue(c, n, levels))
            && forall j :: Written(n, levels) <= j < |c| ==> r[j] == c[j]
    decreases levels
  {
    if levels > 0 {
      WrittenGrows(n, levels, |c|);
      InPlaceEnds(c, n, levels - 1);
      var half := Size(n, levels - 1) / 2;
      var p := InPlace(c, n, levels - 1);
      assert InPlace(c, n, levels) == Overwrite(p, half, half);
      hide InPlace, Overwrite, SelfMade, Size, Written;
      OverwriteReads(p, half, half);
    }
  }

  /**
   What decompress as written makes of any coefficients of any length: x, if and only if behind the
   finest level x is the coefficients, x[0] and x[1] are the front value before that level plus and minus
   its first detail, and every later pair is x's own element at half its index plus and minus a detail.
   */
  ghost predicate DecompressesTo(c: seq<real>, n: nat, levels: nat, x: seq<real>)
    requires levels > 0 && Size(n, levels - 1) <= |c| == |x|
  {
    var half := Size(n, levels - 1) / 2;
    && (forall j :: 2 * half <= j < |x| ==> x[j] == c[j])
    && (half > 0 ==> x[0] == FrontValue(c, n, levels - 1) + c[half] && x[1] == FrontValue(c, n, levels - 1) - c[half])
    && (forall i :: 1 <= i < half ==> SelfMade(c, half, x, i))
  }

  /** A level's result, pair by pair, up to element j. */
  lemma {:induction false} SameUpTo(c: seq<real>, half: nat, r: seq<real>, x: seq<real>, j: nat)
    requires |c| == |r| == |x| && 2 * half <= |c| && j < |x|
    requires forall i :: 2 * half <= i < |x| ==> r[i] == x[i]
    requires half > 0 ==> r[0] == x[0] && r[1] == x[1]
    requires forall i :: 1 <= i < half ==> SelfMade(c, half, r, i) && SelfMade(c, half, x, i)
    ensures r[j] == x[j]
    decreases j
  {
    if 2 <= j < 2 * half {
      var i := j / 2;
      assert SelfMade(c, half, r, i) && SelfMade(c, half, x, i);
      SameUpTo(c, half, r, x, i);
    }
  }

  lemma InPlaceDecompresses(c: seq<real>, n: nat, levels: nat)
    requires levels > 0 && Size(n, levels - 1) <= |c|
    ensures DecompressesTo(c, n, levels, InPlace(c, n, levels))
  {
    hide *;
    var half := Size(n, levels - 1) / 2;
    WrittenGrows(n, levels, |c|);
    InPlaceEnds(c, n, levels - 1);
    LastLevel(c, n, levels);
    OverwriteReads(InPlace(c, n, levels - 1), half, half);
    LevelDecompresses(c, InPlace(c, n, levels - 1), InPlace(c, n, levels), n, levels);
  }

  lemma LastLevel(c: seq<real>, n: nat, levels: nat)
    requires levels > 0 && Size(n, levels - 1) <= |c|
    ensures levels > 1 ==> Size(n, levels - 2) <= |c|
    ensures var half := Size(n, levels - 1) / 2;
            InPlace(c, n, levels) == Overwrite(InPlace(c, n, levels - 1), half, half)
  {}

  lemma LevelDecompresses(c: seq<real>, p: seq<real>, r: seq<real>, n: nat, levels: nat)
    requires levels > 0 && Size(n, levels - 1) <= |c| == |p| == |r|
    requires forall j :: Size(n, levels - 1) / 2 <= j < |c| ==> p[j] == c[j]
    requires levels > 1 ==> Size(n, levels - 2) <= |c|
    requires c != [] ==> p[0] == FrontValue(c, n, levels - 1)
    requires forall j :: 2 * (Size(n, levels - 1) / 2) <= j < |c| ==> r[j] == p[j]
    requires var half := Size(n, levels - 1) / 2; half > 0 ==> r[0] == p[0] + p[half] && r[1] == p[0] - p[half]
    requires var half := Size(n, levels - 1) / 2; forall i :: 1 <= i < half ==> SelfMade(p, half, r, i)
    ensures DecompressesTo(c, n, levels, r)
  {
    hide Size, FrontValue, SelfMade;
    var half := Size(n, levels - 1) / 2;
    forall i | 1 <= i < half
      ensures SelfMade(c, half, r, i)
    {
      SameDetail(c, p, half, r, i);
    }
  }

  lemma SameDetail(c: seq<real>, p: seq<real>, half: nat, r: seq<real>, i: nat)
    requires |r| == |c| == |p| && 2 * half <= |c| && i < half && p[half + i] == c[half + i]
    ensures SelfMade(p, half, r, i) <==> SelfMade(c, half, r, i)
  {}

  lemma OnlyOneResult(c: seq<real>, n: nat, levels: nat, x: seq<real>, y: seq<real>)
    requires levels > 0 && Size(n, levels - 1) <= |c| == |x| == |y|
    requires DecompressesTo(c, n, levels, x) && DecompressesTo(c, n, levels, y)
    ensures x == y
  {
    var half := Size(n, levels - 1) / 2;
    hide Size, FrontValue, SelfMade;
    forall j | 0 <= j < |x| ensures x[j] == y[j] { SameUpTo(c, half, x, y, j); }
  }

  lemma DecompressesToIff(c: seq<real>, levels: nat, x: seq<real>)
    requires levels > 0 && |c| == |x|
    ensures var n := Coarsest(|c|, levels); InPlace(c, n, levels) == x <==> DecompressesTo(c, n, levels, x)
  {
    var n := Coarsest(|c|, levels);
    hide InPlace, DecompressesTo, Size;
    InPlaceDecompresses(c, n, levels);
    if DecompressesTo(c, n, levels, x) { OnlyOneResult(c, n, levels, InPlace(c, n, levels), x); }
  }

  /** A sequence of four elements that decompress as written does not give back. */
  lemma InPlaceLosesFour()
    ensures InPlace(Compressed([1.0, 1.0, 0.0, 0.0], [0.0, 0.0, 0.0, 0.0], 1), Coarsest(4, 1), 1)
        == [1.0, 1.0, 1.0, 1.0]
  {
    var x := [1.0, 1.0, 0.0, 0.0];
    assert Averages(x) == [1.0, 0.0] && Details(x) == [0.0, 0.0];
    var c := Compressed(x, [0.0, 0.0, 0.0, 0.0], 1);
    assert c == [1.0, 0.0, 0.0, 0.0];
    assert Overwrite(c, 2, 1) == [1.0, 1.0, 0.0, 0.0];
    assert Overwrite(c, 2, 2) == [1.0, 1.0, 1.0, 1.0];
    assert Coarsest(4, 1) == 4;
    assert InPlace(c, 4, 1) == Overwrite(InPlace(c, 4, 0), 2, 2);
  }

  // ---- Conservation ---------------------------------------------------------------------------

  /** The sum of squares. */
  function Energy(x: seq<real>): real {
    if x == [] then 0.0 else Energy(x[..|x| - 1]) + Square(x[|x| - 1])
  }

  /** v doubled k times: 2^k times v. */
  function Scale(k: nat, v: real): real { if k == 0 then v else 2.0 * Scale(k - 1, v) }

  lemma {:induction false} ScaleIsProduct(k: nat, v: real)
    ensures Scale(k, v) == Pow2(k) as real * v
  {
    if k > 0 {
      ScaleIsProduct(k - 1, v);
      Twice(Pow2(k - 1) as real, v);
    }
  }

  lemma Twice(p: real, v: real)
    ensures 2.0 * (p * v) == (2.0 * p) * v
  {}

  lemma {:induction false} ScaleAdds(k: nat, a: real, b: real)
    ensures Scale(k, a + b) == Scale(k, a) + Scale(k, b)
    ensures Scale(k + 1, a) == Scale(k, 2.0 * a)
  {
    if k > 0 {
      ScaleAdds(k - 1, a, b);
    }
  }

  lemma {:induction false} PairSums(x: seq<real>)
    requires |x| % 2 == 0
    ensures Sum(x) == 2.0 * Sum(Averages(x))
    ensures Energy(x) == 2.0 * (Energy(Averages(x)) + Energy(Details(x)))
  {
    if x != [] {
      var n := |x| - 2;
      var rest, a, b := x[..n], x[n], x[n + 1];
      PairSums(rest);
      LastPair(x);
      PairEnergy(a, b);
      assert x == rest + [a] + [b];
      hide *;
      SumMore(rest, a);
      SumMore(rest + [a], b);
      SumMore(Averages(rest), (a + b) * 0.5);
      SumMore(Details(rest), (a - b) * 0.5);
    }
  }

  lemma SumMore(x: seq<real>, v: real)
    ensures Sum(x + [v]) == Sum(x) + v && Energy(x + [v]) == Energy(x) + Square(v)
  {
    assert (x + [v])[..|x|] == x;
  }

  lemma LastPair(x: seq<real>)
    requires |x| >= 2 && |x| % 2 == 0
    ensures var n := |x| - 2;
            && Averages(x) == Averages(x[..n]) + [(x[n] + x[n + 1]) * 0.5]
            && Details(x) == Details(x[..n]) + [(x[n] - x[n + 1]) * 0.5]
  {}

  lemma PairEnergy(a: real, b: real)
    ensures Square(a) + Square(b) == 2.0 * (Square((a + b) * 0.5) + Square((a - b) * 0.5))
  {}

  lemma TwoHalves(x: seq<real>, n: nat, levels: nat)
    requires levels > 0 && |x| == Size(n, levels)
    ensures |x| % 2 == 0 && |Averages(x)| == Size(n, levels - 1)
    ensures Forward(x, levels)[..|x| / 2] == Forward(Averages(x), levels - 1)
    ensures Forward(x, levels)[|x| / 2..] == Details(x)
  {}

  lemma ScaleSplits(l: nat, d: real, a: real, e: real)
    requires e == 2.0 * (a + d)
    ensures Scale(l, e) == Scale(l + 1, d) + Scale(l + 1, a)
  {
    hide Scale;
    ScaleAdds(l, 2.0 * d, 2.0 * a);
    ScaleAdds(l, d, 0.0);
    ScaleAdds(l, a, 0.0);
    assert 2.0 * d + 2.0 * a == e;
  }

  /** What is left to transform after k levels. */
  function AveragesAfter(x: seq<real>, k: nat): seq<real> {
    if k == 0 then x else Averages(AveragesAfter(x, k - 1))
  }

  lemma {:induction false} LaterSize(k: nat, levels: nat, n: nat)
    requires k <= levels
    ensures Size(n, levels - k) <= Size(n, levels)
    decreases k
  {
    if k > 0 { LaterSize(k - 1, levels, n); }
  }

  /** The details that level l has left among the coefficients; level 1 is the finest. */
  function LevelDetails(c: seq<real>, n: nat, levels: nat, l: nat): seq<real>
    requires 0 < l <= levels && |c| == Size(n, levels)
  {
    LaterSize(l - 1, levels, n);
    c[Size(n, levels - l)..Size(n, levels - l + 1)]
  }

  /** The sum over the levels up to l of 2^level times the squared details of that level. */
  function DetailEnergy(c: seq<real>, n: nat, levels: nat, l: nat): real
    requires l <= levels && |c| == Size(n, levels)
  {
    if l == 0 then 0.0
    else DetailEnergy(c, n, levels, l - 1) + Pow2(l) as real * Energy(LevelDetails(c, n, levels, l))
  }

  /** The front of the coefficients is the transform of the averages. */
  lemma {:induction false} FrontAfter(x: seq<real>, n: nat, levels: nat, k: nat)
    requires |x| == Size(n, levels) && k <= levels
    ensures |AveragesAfter(x, k)| == Size(n, levels - k) <= |x|
    ensures Forward(x, levels)[..Size(n, levels - k)] == Forward(AveragesAfter(x, k), levels - k)
  {
    hide *;
    LaterSize(k, levels, n);
    var c := Forward(x, levels);
    if k == 0 {
      NoAveragesYet(x);
      assert c[..|c|] == c;
    } else {
      var before := AveragesAfter(x, k - 1);
      FrontAfter(x, n, levels, k - 1);
      AveragesNext(x, k, n, levels);
      TwoHalves(before, n, levels - k + 1);
      PrefixOfPrefix(c, Size(n, levels - k + 1), Size(n, levels - k));
    }
  }

  lemma NoAveragesYet(x: seq<real>)
    ensures AveragesAfter(x, 0) == x
  {}

  lemma PrefixOfPrefix(c: seq<real>, a: nat, b: nat)
    requires b <= a <= |c|
    ensures c[..a][..b] == c[..b] && c[..a][b..] == c[b..a]
  {}

  /** Behind it are the details of the level after. */
  lemma DetailsAfter(x: seq<real>, n: nat, levels: nat, k: nat)
    requires |x| == Size(n, levels) && k < levels
    ensures LevelDetails(Forward(x, levels), n, levels, k + 1) == Details(AveragesAfter(x, k))
  {
    hide *;
    FrontAfter(x, n, levels, k);
    TwoHalves(AveragesAfter(x, k), n, levels - k);
    PrefixOfPrefix(Forward(x, levels), Size(n, levels - k), Size(n, levels - k - 1));
    LevelDetailsAre(Forward(x, levels), n, levels, k + 1);
  }

  lemma LevelDetailsAre(c: seq<real>, n: nat, levels: nat, l: nat)
    requires 0 < l <= levels && |c| == Size(n, levels)
    ensures Size(n, levels - l) <= Size(n, levels - l + 1) <= |c|
    ensures LevelDetails(c, n, levels, l) == c[Size(n, levels - l)..Size(n, levels - l + 1)]
  {
    LaterSize(l - 1, levels, n);
  }

  /** After k levels: their details and the averages left carry the energy. */
  lemma {:induction false} EnergyAfter(x: seq<real>, n: nat, levels: nat, k: nat)
    requires |x| == Size(n, levels) && k <= levels
    ensures Energy(x) == DetailEnergy(Forward(x, levels), n, levels, k) + Scale(k, Energy(AveragesAfter(x, k)))
  {
    hide *;
    if k == 0 {
      NoLevelsYet(x, n, levels);
    } else {
      EnergyAfter(x, n, levels, k - 1);
      FrontAfter(x, n, levels, k - 1);
      DetailsAfter(x, n, levels, k - 1);
      var before := AveragesAfter(x, k - 1);
      AveragesNext(x, k, n, levels);
      PairSums(before);
      ScaleSplits(k - 1, Energy(Details(before)), Energy(Averages(before)), Energy(before));
      ScaleIsProduct(k, Energy(Details(before)));
      DetailsNext(Forward(x, levels), n, levels, k);
    }
  }

  lemma NoLevelsYet(x: seq<real>, n: nat, levels: nat)
    requires |x| == Size(n, levels)
    ensures DetailEnergy(Forward(x, levels), n, levels, 0) == 0.0 && Scale(0, Energy(AveragesAfter(x, 0))) == Energy(x)
  {}

  lemma AveragesNext(x: seq<real>, k: nat, n: nat, levels: nat)
    requires 0 < k <= levels && |AveragesAfter(x, k - 1)| == Size(n, levels - (k - 1))
    ensures AveragesAfter(x, k) == Averages(AveragesAfter(x, k - 1)) && |AveragesAfter(x, k - 1)| % 2 == 0
  {}

  lemma DetailsNext(c: seq<real>, n: nat, levels: nat, k: nat)
    requires 0 < k <= levels && |c| == Size(n, levels)
    ensures DetailEnergy(c, n, levels, k)
         == DetailEnergy(c, n, levels, k - 1) + Pow2(k) as real * Energy(LevelDetails(c, n, levels, k))
  {}

  /**
   The sum of squares is 2^l times the squared details, over all levels l, and 2^levels times the
   squared averages.
   */
  lemma EnergyKept(x: seq<real>, n: nat, levels: nat)
    requires |x| == Size(n, levels)
    ensures n <= |x|
    ensures var c := Forward(x, levels);
            Energy(x) == DetailEnergy(c, n, levels, levels) + Pow2(levels) as real * Energy(c[..n])
  {
    hide *;
    EnergyAfter(x, n, levels, levels);
    FrontAfter(x, n, levels, levels);
    NoLevelsLeft(AveragesAfter(x, levels), n);
    ScaleIsProduct(levels, Energy(AveragesAfter(x, levels)));
  }

  lemma NoLevelsLeft(a: seq<real>, n: nat)
    ensures Size(n, 0) == n && Forward(a, 0) == a
  {}

  /** 2^levels times the sum of the averages left at the end is the sum of the sequence. */
  lemma SumKept(x: seq<real>, n: nat, levels: nat)
    requires |x| == Size(n, levels)
    ensures n <= |x| && Sum(x) == Pow2(levels) as real * Sum(Forward(x, levels)[..n])
  {
    hide *;
    SumAfter(x, levels, n, levels);
    FrontAfter(x, n, levels, levels);
    NoLevelsLeft(AveragesAfter(x, levels), n);
    ScaleIsProduct(levels, Sum(AveragesAfter(x, levels)));
  }

  lemma {:induction false} SumAfter(x: seq<real>, levels: nat, n: nat, k: nat)
    requires |x| == Size(n, levels) && k <= levels
    ensures Sum(x) == Scale(k, Sum(AveragesAfter(x, k)))
  {
    hide *;
    if k == 0 {
      NoAveragesYet(x);
      ScaleNone(Sum(x));
    } else {
      SumAfter(x, levels, n, k - 1);
      FrontAfter(x, n, levels, k - 1);
      AveragesNext(x, k, n, levels);
      PairSums(AveragesAfter(x, k - 1));
      ScaleAdds(k - 1, Sum(AveragesAfter(x, k)), 0.0);
    }
  }

  lemma ScaleNone(v: real)
    ensures Scale(0, v) == v
  {}
}
