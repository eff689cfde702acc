/** The `Point` value type and Rust's `u32` (src/structs.rs). */
module Structs {

  /** One past the largest value of Rust's `u32`. */
  const U32_LIMIT: nat := 0x1_0000_0000

  /** Rust's `u32`. */
  type U32 = n: nat | n < U32_LIMIT

  /** A `u32` result of arithmetic that may overflow: a release build wraps modulo 2^32. */
  function Wrap(n: nat): (r: U32)
    ensures n < U32_LIMIT ==> r == n
  {
    n % U32_LIMIT
  }

  /** A pixel coordinate. Structural equality of the datatype is the derived `PartialEq`/`Eq`. */
  datatype Point = Point(x: U32, y: U32)

  /** `Point::new`. */
  function New(x: U32, y: U32): (p: Point)
    ensures p.x == x && p.y == y
  {
    Point(x, y)
  }

  /** `Point::from_tuple`: the first component is `x`, the second `y`. */
  function FromTuple(p: (U32, U32)): (r: Point)
    ensures r.x == p.0 && r.y == p.1
  {
    Point(p.0, p.1)
  }

  /** `Point::from_array`; the Rust type `[u32; 2]` guarantees exactly two elements. */
  function FromArray(p: seq<U32>): (r: Point)
    requires |p| == 2
    ensures r.x == p[0] && r.y == p[1]
  {
    Point(p[0], p[1])
  }

  /** The derived `Default`: every field is zero. */
  function Default(): (p: Point)
    ensures p.x == 0 && p.y == 0
  {
    Point(0, 0)
  }

  /** The three constructors build the same point from the same two numbers. */
  lemma ConstructorsAgree(a: U32, b: U32)
    ensures FromTuple((a, b)) == New(a, b)
    ensures FromArray([a, b]) == New(a, b)
    ensures Default() == New(0, 0)
  {
  }

  /** The derived equality compares field by field, so `New` is injective. */
  lemma EqualityIsFieldwise(p: Point, q: Point)
    ensures p == q <==> (p.x == q.x && p.y == q.y)
    ensures New(p.x, p.y) == p
  {
  }
}
