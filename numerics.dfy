/** Shared value types: 2D vectors, colours, the optional result, the square
    root the engine treats as an opaque library call, and the clamps the
    physics code uses. All arithmetic is on mathematical reals. */
module Numerics {

  datatype Option<+T> = None | Some(value: T)

  /** glm::vec2 */
  datatype Vec2 = Vec2(x: real, y: real)

  /** glm::vec3 colour; opaque to the physics, only copied around. */
  datatype Color = Color(r: real, g: real, b: real)

  const Zero: Vec2 := Vec2(0.0, 0.0)
  const White: Color := Color(1.0, 1.0, 1.0)

  function Add(a: Vec2, b: Vec2): Vec2 { Vec2(a.x + b.x, a.y + b.y) }
  function Sub(a: Vec2, b: Vec2): Vec2 { Vec2(a.x - b.x, a.y - b.y) }
  function Scale(k: real, v: Vec2): Vec2 { Vec2(k * v.x, k * v.y) }
  function Dot(a: Vec2, b: Vec2): real { a.x * b.x + a.y * b.y }

  /** x * x, kept as a named term so that equal arguments give equal squares
      without arithmetic. */
  function Square(x: real): real { x * x }

  /** Division of a vector by a scalar, as glm's `v / s`. */
  function DivBy(v: Vec2, s: real): Vec2
    requires s != 0.0
  {
    Vec2(v.x / s, v.y / s)
  }

  /** The laws a proof about this code may use of `std::sqrt`. Nothing else
      about the square root is assumed: it is not claimed to be exact. */
  ghost predicate SqrtLaws(f: real -> real) {
    && (forall x :: 0.0 <= x ==> 0.0 <= f(x))
    && (forall x :: 0.0 <= x ==> (f(x) == 0.0 <==> x == 0.0))
    && (forall x, y :: 0.0 <= x <= y ==> f(x) <= f(y))
  }

  /** Every square root the model is given obeys SqrtLaws. */
  type SqrtFn = f: real -> real | SqrtLaws(f) witness (x: real) => if x <= 0.0 then 0.0 else x

  lemma SqrtOfZero(sqrt: SqrtFn)
    ensures sqrt(0.0) == 0.0
  {
    assert SqrtLaws(sqrt);
  }

  lemma SqrtPositive(sqrt: SqrtFn, x: real)
    requires 0.0 < x
    ensures 0.0 < sqrt(x)
  {
    assert SqrtLaws(sqrt);
  }

  /** std::pow(x, 1.5) for x >= 0, written as x * sqrt(x). */
  function Pow15(sqrt: SqrtFn, x: real): (r: real)
    requires 0.0 <= x
    ensures 0.0 < x ==> 0.0 < r
  {
    if 0.0 < x then SqrtPositive(sqrt, x); x * sqrt(x) else x * sqrt(x)
  }

  /** glm::length(v) = sqrt(dot(v, v)). */
  function Length(sqrt: SqrtFn, v: Vec2): (r: real)
    ensures 0.0 <= r
  {
    SquaresNonNegative(v);
    sqrt(Dot(v, v))
  }

  lemma SquaresNonNegative(v: Vec2)
    ensures 0.0 <= Dot(v, v)
  {
    SquarePositive(v.x);
    SquarePositive(v.y);
  }

  lemma SquarePositive(a: real)
    ensures 0.0 <= a * a
  {
    if a < 0.0 {
      assert a * a == (-a) * (-a);
    }
  }

  /** The distance between two points does not depend on their order. */
  lemma {:induction false} LengthOfSubSymmetric(sqrt: SqrtFn, a: Vec2, b: Vec2)
    ensures Length(sqrt, Sub(a, b)) == Length(sqrt, Sub(b, a))
  {
    assert Dot(Sub(a, b), Sub(a, b)) == Dot(Sub(b, a), Sub(b, a)) by {
      assert (a.x - b.x) * (a.x - b.x) == (b.x - a.x) * (b.x - a.x);
      assert (a.y - b.y) * (a.y - b.y) == (b.y - a.y) * (b.y - a.y);
    }
  }

  /** std::min / std::max on floats (ties return the first argument). */
  function Min(a: real, b: real): (r: real)
    ensures r <= a && r <= b && (r == a || r == b)
  {
    if b < a then b else a
  }

  function Max(a: real, b: real): (r: real)
    ensures a <= r && b <= r && (r == a || r == b)
  {
    if a < b then b else a
  }

  function MaxInt(a: int, b: int): (r: int)
    ensures a <= r && b <= r && (r == a || r == b)
  {
    if a < b then b else a
  }

  /** std::clamp(v, lo, hi): lo if v < lo, else hi if hi < v, else v. */
  function Clamp(v: real, lo: real, hi: real): (r: real)
    ensures lo <= hi ==> lo <= r <= hi
    ensures lo <= v <= hi ==> r == v
  {
    if v < lo then lo else if hi < v then hi else v
  }

  /** std::vector::erase at one index: the element at `i` is gone and the
      others keep their order. */
  function RemoveAt<T>(s: seq<T>, i: int): (r: seq<T>)
    requires 0 <= i < |s|
    ensures |r| == |s| - 1
    ensures forall k :: 0 <= k < i ==> r[k] == s[k]
    ensures forall k :: i <= k < |r| ==> r[k] == s[k + 1]
    ensures multiset(r) + multiset{s[i]} == multiset(s)
  {
    assert s == s[..i] + [s[i]] + s[i + 1..];
    s[..i] + s[i + 1..]
  }

  /** On [k c, (k + 1) c) the remainder by c is x - k c. */
  lemma ModInRange(x: int, c: int, k: int)
    requires 0 < c && k * c <= x < k * c + c
    ensures x % c == x - k * c
  {
    var q, r := x / c, x % c;
    assert x == q * c + r && 0 <= r < c;
    assert (k - 1) * c == k * c - c && (k + 1) * c == k * c + c;
    // A quotient other than k would put x outside [k c, (k + 1) c).
    if q < k {
      MulMono(q, k - 1, c);
    } else if q > k {
      MulMono(k + 1, q, c);
    }
  }

  lemma MulMono(a: int, b: int, c: int)
    requires a <= b && 0 < c
    ensures a * c <= b * c
  {
    assert b * c - a * c == (b - a) * c;
  }
}
