/** Word vectors (src/vector.rs): a borrowed `Vector` view and an `OwnedVector`, both a
    sequence of values plus a term. Values are modelled as `real`. */
module Vectors {

  /** The borrowed record: a view of `data` and `term` held elsewhere. */
  datatype Vector = Vector(data: seq<real>, term: string)

  /** The owned record: the same two parts, held by the record itself. */
  datatype OwnedVector = OwnedVector(data: seq<real>, term: string)

  /** `Vector::dim`. */
  function Dim(v: Vector): nat {
    |v.data|
  }

  /** `OwnedVector::dim`. */
  function OwnedDim(o: OwnedVector): nat {
    |o.data|
  }

  /** `OwnedVector::as_ref`: a view of the owned parts. */
  function AsRef(o: OwnedVector): (v: Vector)
    ensures v.data == o.data && v.term == o.term
    ensures Dim(v) == OwnedDim(o)
  {
    Vector(o.data, o.term)
  }

  /** `OwnedVector::new`: copies a borrowed record's parts. */
  function NewOwned(data: seq<real>, term: string): (o: OwnedVector)
    ensures AsRef(o) == Vector(data, term)
    ensures OwnedDim(o) == |data|
  {
    OwnedVector(data, term)
  }

  /** `OwnedVector::new_raw`: takes the parts as they are. */
  function NewRaw(data: seq<real>, term: string): (o: OwnedVector)
    ensures AsRef(o) == Vector(data, term)
  {
    OwnedVector(data, term)
  }

  /** Element-wise sum of two sequences of the same length. */
  function SumEach(a: seq<real>, b: seq<real>): (r: seq<real>)
    requires |a| == |b|
    ensures |r| == |a|
    ensures forall i :: 0 <= i < |r| ==> r[i] == a[i] + b[i]
  {
    if |a| == 0 then [] else [a[0] + b[0]] + SumEach(a[1..], b[1..])
  }

  /** `Vector + rhs`: the dimensions must agree (an `assert_eq!`), the data is summed
      element by element and the terms are joined with one space. */
  function Add(a: Vector, b: Vector): (r: OwnedVector)
    requires Dim(a) == Dim(b)
    ensures OwnedDim(r) == Dim(a)
    ensures forall i :: 0 <= i < OwnedDim(r) ==> r.data[i] == a.data[i] + b.data[i]
    ensures r.term == a.term + " " + b.term
  {
    NewRaw(SumEach(a.data, b.data), a.term + " " + b.term)
  }

  /** `OwnedVector + rhs`: addition through the owned record's view. */
  function OwnedAdd(a: OwnedVector, b: Vector): (r: OwnedVector)
    requires OwnedDim(a) == Dim(b)
    ensures OwnedDim(r) == OwnedDim(a)
    ensures forall i :: 0 <= i < OwnedDim(r) ==> r.data[i] == a.data[i] + b.data[i]
    ensures r.term == a.term + " " + b.term
  {
    Add(AsRef(a), b)
  }

  /** Sum of pairwise products over the zip of the two sequences, so the longer
      one is cut to the length of the shorter. */
  function ZipDot(a: seq<real>, b: seq<real>): real {
    if |a| == 0 || |b| == 0 then 0.0 else a[0] * b[0] + ZipDot(a[1..], b[1..])
  }

  /** `Vector::dot`. */
  function Dot(a: Vector, b: Vector): real {
    ZipDot(a.data, b.data)
  }

  /** `OwnedVector::dot`: the dot product of the owned record's view. */
  function OwnedDot(a: OwnedVector, b: Vector): real {
    Dot(AsRef(a), b)
  }

  function SumSquares(a: seq<real>): real {
    if |a| == 0 then 0.0 else a[0] * a[0] + SumSquares(a[1..])
  }

  /** `Vector::length`: the 2-norm, through the supplied square root. */
  function Length(v: Vector, sqrt: real -> real): real {
    sqrt(SumSquares(v.data))
  }

  /** `OwnedVector::length`. */
  function OwnedLength(o: OwnedVector, sqrt: real -> real): real {
    Length(AsRef(o), sqrt)
  }

  /** `Vector::cosine`: 0 when the dot product is 0 or the product of the lengths
      is 0; otherwise the dot product divided by that product. */
  function Cosine(a: Vector, b: Vector, sqrt: real -> real): (r: real)
    ensures Dot(a, b) == 0.0 ==> r == 0.0
    ensures Length(a, sqrt) * Length(b, sqrt) == 0.0 ==> r == 0.0
    ensures Dot(a, b) != 0.0 && Length(a, sqrt) * Length(b, sqrt) != 0.0 ==>
              r * (Length(a, sqrt) * Length(b, sqrt)) == Dot(a, b)
  {
    var dot := Dot(a, b);
    if dot == 0.0 then 0.0
    else
      var div := Length(a, sqrt) * Length(b, sqrt);
      if div == 0.0 then 0.0 else dot / div
  }

  /** `OwnedVector::cosine`: the cosine of the owned record's view. */
  function OwnedCosine(a: OwnedVector, b: Vector, sqrt: real -> real): (r: real)
    ensures ZipDot(a.data, b.data) == 0.0 ==> r == 0.0
    ensures r == Cosine(Vector(a.data, a.term), b, sqrt)
  {
    Cosine(AsRef(a), b, sqrt)
  }

  /** The dot product is symmetric. */
  lemma {:induction false} DotSymmetric(a: Vector, b: Vector)
    ensures Dot(a, b) == Dot(b, a)
  {
    ZipDotSymmetric(a.data, b.data);
  }

  lemma {:induction false} ZipDotSymmetric(a: seq<real>, b: seq<real>)
    ensures ZipDot(a, b) == ZipDot(b, a)
  {
    if |a| > 0 && |b| > 0 {
      ZipDotSymmetric(a[1..], b[1..]);
    }
  }

  /** Only the common prefix takes part in the dot product. */
  lemma {:induction false} DotTruncates(a: Vector, b: Vector)
    ensures var m := if Dim(a) <= Dim(b) then Dim(a) else Dim(b);
            Dot(a, b) == ZipDot(a.data[..m], b.data[..m])
  {
    ZipDotPrefix(a.data, b.data);
  }

  lemma {:induction false} ZipDotPrefix(a: seq<real>, b: seq<real>)
    ensures var m := if |a| <= |b| then |a| else |b|;
            ZipDot(a, b) == ZipDot(a[..m], b[..m])
  {
    var m := if |a| <= |b| then |a| else |b|;
    if m > 0 {
      ZipDotPrefix(a[1..], b[1..]);
      assert a[..m][1..] == a[1..][..m - 1];
      assert b[..m][1..] == b[1..][..m - 1];
    }
  }

  /** The dot product distributes over record addition. */
  lemma {:induction false} DotOfSum(a: Vector, b: Vector, c: Vector)
    requires Dim(a) == Dim(b)
    ensures Dot(AsRef(Add(a, b)), c) == Dot(a, c) + Dot(b, c)
  {
    ZipDotOfSum(a.data, b.data, c.data);
  }

  lemma {:induction false} ZipDotOfSum(a: seq<real>, b: seq<real>, c: seq<real>)
    requires |a| == |b|
    ensures ZipDot(SumEach(a, b), c) == ZipDot(a, c) + ZipDot(b, c)
  {
    if |a| > 0 && |c| > 0 {
      ZipDotOfSum(a[1..], b[1..], c[1..]);
      assert SumEach(a, b)[1..] == SumEach(a[1..], b[1..]);
    }
  }

  lemma {:induction false} ZipDotSelf(a: seq<real>)
    ensures ZipDot(a, a) == SumSquares(a)
  {
    if |a| > 0 {
      ZipDotSelf(a[1..]);
    }
  }

  lemma {:induction false} SumSquaresNonNegative(a: seq<real>)
    ensures SumSquares(a) >= 0.0
  {
    if |a| > 0 {
      SumSquaresNonNegative(a[1..]);
    }
  }

  /** `sqrt` is the square root on the non-negative reals. */
  ghost predicate IsSqrt(sqrt: real -> real) {
    forall x: real :: x >= 0.0 ==> sqrt(x) >= 0.0 && sqrt(x) * sqrt(x) == x
  }

  /** A record whose data is all zeros has cosine 0 with anything. */
  lemma {:induction false} CosineOfZero(a: Vector, b: Vector, sqrt: real -> real)
    requires forall i :: 0 <= i < Dim(a) ==> a.data[i] == 0.0
    ensures Cosine(a, b, sqrt) == 0.0
  {
    ZipDotZero(a.data, b.data);
  }

  lemma {:induction false} ZipDotZero(a: seq<real>, b: seq<real>)
    requires forall i :: 0 <= i < |a| ==> a[i] == 0.0
    ensures ZipDot(a, b) == 0.0
  {
    if |a| > 0 && |b| > 0 {
      ZipDotZero(a[1..], b[1..]);
    }
  }

  /** Cosine is symmetric. */
  lemma CosineSymmetric(a: Vector, b: Vector, sqrt: real -> real)
    ensures Cosine(a, b, sqrt) == Cosine(b, a, sqrt)
  {
    DotSymmetric(a, b);
  }

  /** A record with a non-zero length has cosine 1 with itself. */
  lemma CosineSelf(v: Vector, sqrt: real -> real)
    requires IsSqrt(sqrt)
    requires SumSquares(v.data) != 0.0
    ensures Cosine(v, v, sqrt) == 1.0
  {
    ZipDotSelf(v.data);
    SumSquaresNonNegative(v.data);
    var s := SumSquares(v.data);
    assert sqrt(s) * sqrt(s) == s;
    assert Dot(v, v) == s;
    var len := Length(v, sqrt);
    assert len * len == s;
    assert Cosine(v, v, sqrt) == s / s;
    assert s / s == 1.0;
  }
}
