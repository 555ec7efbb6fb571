/**
 The flattened multi-dimensional data cube (`Cube` in Common.ts): a point's
 coordinates map to a row-major index into one flat array, and
 `forEachPoint` visits every point in index order by incrementing the
 coordinates like an odometer.
 */
module Cube {

  /** The number of points: the product of the dimension sizes (1 for no dimensions). */
  function Product(dims: seq<nat>): nat {
    if dims == [] then 1 else dims[0] * Product(dims[1..])
  }

  /** Every coordinate lies within its dimension. */
  predicate InBounds(coords: seq<int>, dims: seq<nat>) {
    |coords| == |dims| && forall i | 0 <= i < |coords| :: 0 <= coords[i] < dims[i]
  }

  /**
   The row-major index: the sum over i of coords[i] times the product of the
   later dimensions.
   */
  function RowMajor(coords: seq<int>, dims: seq<nat>): int
    requires |coords| == |dims|
  {
    if coords == [] then 0 else coords[0] * Product(dims[1..]) + RowMajor(coords[1..], dims[1..])
  }

  /** The index the loop of `Cube.indexOf` accumulates: multiply by the size, add the coordinate. */
  function Horner(coords: seq<int>, dims: seq<nat>): int
    requires |coords| == |dims|
  {
    if coords == [] then 0
    else Horner(coords[..|coords| - 1], dims[..|dims| - 1]) * dims[|dims| - 1] + coords[|coords| - 1]
  }

  lemma {:induction false} ProductSnoc(dims: seq<nat>, x: nat)
    ensures Product(dims + [x]) == Product(dims) * x
  {
    if dims != [] {
      assert (dims + [x])[1..] == dims[1..] + [x];
      ProductSnoc(dims[1..], x);
    }
  }

  /** Appending a coordinate multiplies the row-major index by the new size and adds it. */
  lemma {:induction false} RowMajorSnoc(coords: seq<int>, dims: seq<nat>, c: int, x: nat)
    requires |coords| == |dims|
    ensures RowMajor(coords + [c], dims + [x]) == RowMajor(coords, dims) * x + c
  {
    if coords != [] {
      var p := Product(dims[1..]);
      var rest := RowMajor(coords[1..], dims[1..]);
      TailSnoc(coords, c);
      TailSnoc(dims, x);
      RowMajorSnoc(coords[1..], dims[1..], c, x);
      ProductSnoc(dims[1..], x);
      MulDistrib(coords[0], p, rest, x);
    }
  }

  lemma TailSnoc<T>(s: seq<T>, e: T)
    requires s != []
    ensures (s + [e])[0] == s[0] && (s + [e])[1..] == s[1..] + [e]
  {
  }

  lemma MulDistrib(a: int, p: int, rest: int, x: int)
    ensures a * (p * x) + rest * x == (a * p + rest) * x
  {
  }

  /** The loop's accumulation equals the row-major sum. */
  lemma {:induction false} HornerIsRowMajor(coords: seq<int>, dims: seq<nat>)
    requires |coords| == |dims|
    ensures Horner(coords, dims) == RowMajor(coords, dims)
  {
    if coords != [] {
      var n := |coords| - 1;
      HornerIsRowMajor(coords[..n], dims[..n]);
      RowMajorSnoc(coords[..n], dims[..n], coords[n], dims[n]);
      assert coords[..n] + [coords[n]] == coords && dims[..n] + [dims[n]] == dims;
    }
  }

  /** An in-bounds point's index is an index into the flat array. */
  lemma {:induction false} HornerInRange(coords: seq<int>, dims: seq<nat>)
    requires InBounds(coords, dims)
    ensures 0 <= Horner(coords, dims) < Product(dims)
  {
    if coords != [] {
      var n := |coords| - 1;
      HornerInRange(coords[..n], dims[..n]);
      ProductSnoc(dims[..n], dims[n]);
      assert dims[..n] + [dims[n]] == dims;
      MixedRadixBound(Horner(coords[..n], dims[..n]), coords[n], Product(dims[..n]), dims[n]);
    }
  }

  // Small facts of arithmetic the proofs above and below rely on.

  lemma MulMono(a: int, b: int, c: nat)
    requires a <= b
    ensures a * c <= b * c
  {
  }

  /** One more digit in a mixed-radix number: h in [0, p) and c in [0, x) give h * x + c in [0, p * x). */
  lemma MixedRadixBound(h: int, c: int, p: int, x: int)
    requires 0 <= h < p && 0 <= c < x
    ensures 0 <= h * x + c < p * x
  {
    MulMono(h + 1, p, x);
    assert (h + 1) * x == h * x + x;
  }

  lemma LtMulCancel(a: int, b: int, x: nat)
    requires a * x < b * x
    ensures a < b
  {
    if a >= b {
      MulMono(b, a, x);
    }
  }

  lemma DivBound(p: nat, x: nat, q: nat)
    requires x > 0 && p < q * x
    ensures p / x < q
  {
    var d := p / x;
    assert d * x <= p;
    LtMulCancel(d, q, x);
  }

  lemma DivModUnique(p: int, d: int, q: int, r: int)
    requires d > 0 && 0 <= r < d && p == q * d + r
    ensures p / d == q && p % d == r
  {
    var q' := p / d;
    var r' := p % d;
    assert q' * d + r' == p;
    assert (q - q') * d == r' - r;
    if q > q' {
      MulMono(1, q - q', d);
    } else if q < q' {
      MulMono(1, q' - q, d);
    }
  }

  lemma DivMod(p: nat, x: nat)
    requires x > 0
    ensures p == (p / x) * x + p % x && 0 <= p % x < x
  {
  }

  /** Every dimension of a non-empty cube has positive size. */
  lemma {:induction false} ProductPositive(dims: seq<nat>)
    requires Product(dims) > 0
    ensures forall i | 0 <= i < |dims| :: dims[i] > 0
  {
    if dims != [] {
      assert dims[0] * Product(dims[1..]) > 0;
      ProductPositive(dims[1..]);
      forall i | 1 <= i < |dims| ensures dims[i] > 0 {
        assert dims[i] == dims[1..][i - 1];
      }
    }
  }

  /**
   `Cube.indexOf(coords, dimensions)`. The source asserts that the two
   arrays have the same length.
   */
  method IndexOf(coords: seq<int>, dims: seq<nat>) returns (index: int)
    requires |coords| == |dims|
    ensures index == RowMajor(coords, dims)
    ensures InBounds(coords, dims) ==> 0 <= index < Product(dims)
  {
    index := 0;
    var i := 0;
    while i < |coords|
      invariant 0 <= i <= |coords|
      invariant index == Horner(coords[..i], dims[..i])
    {
      assert coords[..i + 1][..i] == coords[..i] && dims[..i + 1][..i] == dims[..i];
      index := index * dims[i];
      index := index + coords[i];
      i := i + 1;
    }
    assert coords[..i] == coords && dims[..i] == dims;
    HornerIsRowMajor(coords, dims);
    if InBounds(coords, dims) {
      HornerInRange(coords, dims);
    }
  }

  // ---------------------------------------------------------------------
  // forEachPoint
  // ---------------------------------------------------------------------

  /**
   The inner loop of `forEachPoint`: increment the last coordinate, and while
   it reaches its dimension's size, reset it to 0 and carry into the one before.
   */
  function Increment(coords: seq<int>, dims: seq<nat>): (r: seq<int>)
    requires |coords| == |dims|
    ensures |r| == |coords|
  {
    if coords == [] then []
    else
      var n := |coords| - 1;
      if coords[n] + 1 == dims[n] then Increment(coords[..n], dims[..n]) + [0]
      else coords[..n] + [coords[n] + 1]
  }

  /** Incrementing an in-bounds point that is not the last gives the next index. */
  lemma {:induction false} IncrementNext(coords: seq<int>, dims: seq<nat>)
    requires InBounds(coords, dims)
    requires Horner(coords, dims) + 1 < Product(dims)
    ensures InBounds(Increment(coords, dims), dims)
    ensures Horner(Increment(coords, dims), dims) == Horner(coords, dims) + 1
  {
    var n := |coords| - 1;
    if coords[n] + 1 == dims[n] {
      CarryBounds(coords, dims);
      IncrementNext(coords[..n], dims[..n]);
      CarryResult(coords, dims);
    } else {
      NoCarryResult(coords, dims);
    }
  }

  /** A carry out of the last coordinate leaves room to increment the ones before it. */
  lemma CarryBounds(coords: seq<int>, dims: seq<nat>)
    requires InBounds(coords, dims) && coords != []
    requires Horner(coords, dims) + 1 < Product(dims)
    requires coords[|coords| - 1] + 1 == dims[|dims| - 1]
    ensures var n := |coords| - 1;
      InBounds(coords[..n], dims[..n]) && Horner(coords[..n], dims[..n]) + 1 < Product(dims[..n])
  {
    var n := |coords| - 1;
    ProductInit(dims);
    InBoundsInit(coords, dims);
    CarryArith(Horner(coords[..n], dims[..n]), coords[n], dims[n], Product(dims[..n]));
  }

  /** With the last coordinate at its largest, the next index has room only if the prefix does. */
  lemma CarryArith(h: int, c: int, x: nat, p: int)
    requires c + 1 == x && h * x + c + 1 < p * x
    ensures h + 1 < p
  {
    MulSucc(h, x);
    LtMulCancel(h + 1, p, x);
  }

  lemma InBoundsInit(coords: seq<int>, dims: seq<nat>)
    requires InBounds(coords, dims) && coords != []
    ensures InBounds(coords[..|coords| - 1], dims[..|dims| - 1])
  {
  }

  /** The product of the dimensions is that of all but the last, times the last. */
  lemma ProductInit(dims: seq<nat>)
    requires dims != []
    ensures Product(dims) == Product(dims[..|dims| - 1]) * dims[|dims| - 1]
  {
    var n := |dims| - 1;
    assert dims[..n] + [dims[n]] == dims;
    ProductSnoc(dims[..n], dims[n]);
  }

  lemma MulSucc(h: int, x: int)
    ensures (h + 1) * x == h * x + x
  {
  }

  /** After a carry, the prefix's increment followed by a 0 is the next index. */
  lemma CarryResult(coords: seq<int>, dims: seq<nat>)
    requires InBounds(coords, dims) && coords != []
    requires coords[|coords| - 1] + 1 == dims[|dims| - 1]
    requires var n := |coords| - 1;
      InBounds(Increment(coords[..n], dims[..n]), dims[..n])
      && Horner(Increment(coords[..n], dims[..n]), dims[..n]) == Horner(coords[..n], dims[..n]) + 1
    ensures InBounds(Increment(coords, dims), dims)
    ensures Horner(Increment(coords, dims), dims) == Horner(coords, dims) + 1
  {
    var n := |coords| - 1;
    var x := dims[n];
    var h := Horner(coords[..n], dims[..n]);
    var r := Increment(coords, dims);
    assert r == Increment(coords[..n], dims[..n]) + [0];
    assert r[..n] == Increment(coords[..n], dims[..n]);
    assert Horner(r, dims) == (h + 1) * x;
    MulSucc(h, x);
  }

  /** Without a carry only the last coordinate moves, by one. */
  lemma NoCarryResult(coords: seq<int>, dims: seq<nat>)
    requires InBounds(coords, dims) && coords != []
    requires coords[|coords| - 1] + 1 != dims[|dims| - 1]
    ensures InBounds(Increment(coords, dims), dims)
    ensures Horner(Increment(coords, dims), dims) == Horner(coords, dims) + 1
  {
    var n := |coords| - 1;
    var r := Increment(coords, dims);
    assert r == coords[..n] + [coords[n] + 1];
    assert r[..n] == coords[..n];
  }

  /** The point at index 0: all coordinates zero. */
  function Zeros(n: nat): (r: seq<int>)
    ensures |r| == n && forall i | 0 <= i < n :: r[i] == 0
  {
    if n == 0 then [] else Zeros(n - 1) + [0]
  }

  lemma {:induction false} HornerZeros(dims: seq<nat>)
    ensures Horner(Zeros(|dims|), dims) == 0
  {
    if dims != [] {
      var n := |dims| - 1;
      assert Zeros(|dims|)[..n] == Zeros(n);
      HornerZeros(dims[..n]);
    }
  }

  /**
   `Cube.forEachPoint(dimensions, callback)`: the coordinates handed to the
   callback, in order. There are as many as the cube has points, each in
   bounds, and the k-th is the point with index k.
   */
  method ForEachPoint(dims: seq<nat>) returns (visited: seq<seq<int>>)
    ensures |visited| == Product(dims)
    ensures forall k | 0 <= k < |visited| :: InBounds(visited[k], dims) && RowMajor(visited[k], dims) == k
  {
    var npoints := Product(dims);
    var coords := Zeros(|dims|);
    HornerZeros(dims);
    if npoints > 0 {
      ProductPositive(dims);
    }
    visited := [];
    var i := 0;
    while i < npoints
      invariant 0 <= i <= npoints && |visited| == i && |coords| == |dims|
      invariant i < npoints ==> InBounds(coords, dims) && Horner(coords, dims) == i
      invariant forall k | 0 <= k < i :: InBounds(visited[k], dims) && RowMajor(visited[k], dims) == k
    {
      HornerIsRowMajor(coords, dims);
      visited := visited + [coords];
      if i + 1 < npoints {
        IncrementNext(coords, dims);
      }
      coords := Increment(coords, dims);
      i := i + 1;
    }
  }

  // ---------------------------------------------------------------------
  // coordinates
  // ---------------------------------------------------------------------

  /** JavaScript's `%` on non-negative numbers. */
  function RealMod(x: real, y: real): real
    requires x >= 0.0 && y > 0.0
  {
    x - (x / y).Floor as real * y
  }

  /**
   `Cube.coordinates(position, dimensions)` as written: the position is
   divided with `/=`, which is not integer division, so every coordinate but
   the last carries a fraction.
   */
  function CoordinatesAsWritten(position: real, dims: seq<nat>): (r: seq<real>)
    requires position >= 0.0 && forall i | 0 <= i < |dims| :: dims[i] > 0
    ensures |r| == |dims|
    decreases |dims|
  {
    if dims == [] then []
    else
      var n := |dims| - 1;
      var count := dims[n] as real;
      CoordinatesAsWritten(position / count, dims[..n]) + [RealMod(position, count)]
  }

  /** Position 4 of a 2 x 3 cube is (1, 1); the code as written gives (4/3, 1). */
  lemma CoordinatesAsWrittenFractional()
    ensures CoordinatesAsWritten(4.0, [2, 3]) == [4.0 / 3.0, 1.0]
    ensures Coordinates(4, [2, 3]) == [1, 1]
  {
    assert (4.0 / 3.0 / 2.0).Floor == 0;
    assert (4.0 / 3.0).Floor == 1;
    assert [2, 3][..1] == [2];
  }

  /**
   `Cube.coordinates` with integer division: the last coordinate is the
   position modulo the last dimension, and the others are the coordinates of
   the quotient. Every coordinate, the first included, is reduced modulo its
   dimension, so the result is in bounds for any position.
   */
  function Coordinates(position: nat, dims: seq<nat>): (r: seq<int>)
    requires forall i | 0 <= i < |dims| :: dims[i] > 0
    ensures |r| == |dims|
    ensures InBounds(r, dims)
    decreases |dims|
  {
    if dims == [] then []
    else
      var n := |dims| - 1;
      var x := dims[n];
      Coordinates(position / x, dims[..n]) + [position % x]
  }

  /** The coordinates of an index in range are in bounds and index back to it. */
  lemma {:induction false} CoordinatesIndexRoundTrip(position: nat, dims: seq<nat>)
    requires forall i | 0 <= i < |dims| :: dims[i] > 0
    requires position < Product(dims)
    ensures InBounds(Coordinates(position, dims), dims)
    ensures RowMajor(Coordinates(position, dims), dims) == position
    decreases |dims|
  {
    if dims != [] {
      var n := |dims| - 1;
      ProductInit(dims);
      DivBound(position, dims[n], Product(dims[..n]));
      CoordinatesIndexRoundTrip(position / dims[n], dims[..n]);
      CoordinatesStep(position, dims);
    }
  }

  /** The coordinates of a position are those of its quotient, followed by its remainder. */
  lemma CoordinatesStep(position: nat, dims: seq<nat>)
    requires dims != [] && forall i | 0 <= i < |dims| :: dims[i] > 0
    requires var n := |dims| - 1; var q := position / dims[n];
      InBounds(Coordinates(q, dims[..n]), dims[..n]) && RowMajor(Coordinates(q, dims[..n]), dims[..n]) == q
    ensures InBounds(Coordinates(position, dims), dims)
    ensures RowMajor(Coordinates(position, dims), dims) == position
  {
    var n := |dims| - 1;
    var x := dims[n];
    var q := position / x;
    var c := Coordinates(position, dims);
    assert c[..n] == Coordinates(q, dims[..n]);
    assert c[n] == position % x;
    DivMod(position, x);
    HornerIsRowMajor(c, dims);
    HornerIsRowMajor(c[..n], dims[..n]);
    assert Horner(c, dims) == q * x + position % x;
  }

  /** Indexing an in-bounds point and taking the coordinates of the index gives the point back. */
  lemma {:induction false} IndexCoordinatesRoundTrip(coords: seq<int>, dims: seq<nat>)
    requires InBounds(coords, dims)
    ensures RowMajor(coords, dims) >= 0
    ensures Coordinates(RowMajor(coords, dims), dims) == coords
  {
    HornerIsRowMajor(coords, dims);
    HornerInRange(coords, dims);
    if coords != [] {
      var n := |coords| - 1;
      var h := Horner(coords[..n], dims[..n]);
      HornerInRange(coords[..n], dims[..n]);
      HornerIsRowMajor(coords[..n], dims[..n]);
      var p := h * dims[n] + coords[n];
      assert p / dims[n] == h && p % dims[n] == coords[n] by {
        DivModUnique(p, dims[n], h, coords[n]);
      }
      IndexCoordinatesRoundTrip(coords[..n], dims[..n]);
      assert coords == coords[..n] + [coords[n]];
    }
  }
}
