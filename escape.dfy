// The escape-time kernel: the recurrence z <- z*z + c and the bounded loop
// that stops at the first iterate outside the circle of radius 2.

module Escape {

  datatype Option<T> = None | Some(value: T)

  datatype Complex = Complex(re: real, im: real)

  const Zero := Complex(0.0, 0.0)

  /** Real part of the next iterate. */
  function Zx(n: real, ni: real, c: real): real
  {
    (n * n - ni * ni) + c
  }

  /** Imaginary part of the next iterate. */
  function Zy(n: real, ni: real, ci: real): real
  {
    (2.0 * ni * n) + ci
  }

  function Add(a: Complex, b: Complex): Complex
  {
    Complex(a.re + b.re, a.im + b.im)
  }

  function Mul(a: Complex, b: Complex): Complex
  {
    Complex(a.re * b.re - a.im * b.im, a.re * b.im + a.im * b.re)
  }

  /** One step of the recurrence, built from `Zx` and `Zy`. */
  function Step(z: Complex, c: Complex): Complex
  {
    Complex(Zx(z.re, z.im, c.re), Zy(z.re, z.im, c.im))
  }

  /** The step is the complex square plus the sampled point. */
  lemma StepIsSquarePlusC(z: Complex, c: Complex)
    ensures Step(z, c) == Add(Mul(z, z), c)
  {
  }

  /** |z| > 2, stated on the square of the modulus. */
  predicate Escaped(z: Complex)
  {
    z.re * z.re + z.im * z.im > 4.0
  }

  /** The `k`-th iterate starting from `z0`. */
  function Orbit(z0: Complex, c: Complex, k: nat): Complex
  {
    if k == 0 then z0 else Step(Orbit(z0, c, k - 1), c)
  }

  /** The test made by iteration `i` of the loop, on the iterate it has just
      computed. */
  predicate EscapedAt(z0: Complex, c: Complex, i: nat)
  {
    Escaped(Orbit(z0, c, i + 1))
  }

  /** The first iteration in `i .. depth-1` whose test succeeds. */
  function EscapeFrom(z0: Complex, c: Complex, i: nat, depth: nat): Option<nat>
    decreases depth - i
  {
    if depth <= i then None
    else if EscapedAt(z0, c, i) then Some(i)
    else EscapeFrom(z0, c, i + 1, depth)
  }

  function FirstEscape(z0: Complex, c: Complex, depth: nat): Option<nat>
  {
    EscapeFrom(z0, c, 0, depth)
  }

  /** The loop's result: the escaping iteration, or `sentinel` if none. */
  function EscapeCount(z0: Complex, c: Complex, depth: nat, sentinel: int): int
  {
    match FirstEscape(z0, c, depth)
    case Some(n) => n
    case None => sentinel
  }

  lemma {:induction false} EscapeFromSpec(z0: Complex, c: Complex, i: nat, depth: nat)
    requires i <= depth
    ensures match EscapeFrom(z0, c, i, depth)
            case Some(n) =>
              i <= n < depth && EscapedAt(z0, c, n) &&
              forall k :: i <= k < n ==> !EscapedAt(z0, c, k)
            case None =>
              forall k :: i <= k < depth ==> !EscapedAt(z0, c, k)
    decreases depth - i
  {
    if i < depth && !EscapedAt(z0, c, i) {
      EscapeFromSpec(z0, c, i + 1, depth);
    }
  }

  /** `FirstEscape` is exactly the least iteration below `depth` whose test
      succeeds, and it is `None` exactly when no test below `depth` succeeds. */
  lemma FirstEscapeSpec(z0: Complex, c: Complex, depth: nat, n: nat)
    ensures FirstEscape(z0, c, depth) == Some(n) <==>
            (n < depth && EscapedAt(z0, c, n) && forall k :: 0 <= k < n ==> !EscapedAt(z0, c, k))
    ensures FirstEscape(z0, c, depth) == None <==>
            (forall k :: 0 <= k < depth ==> !EscapedAt(z0, c, k))
  {
    EscapeFromSpec(z0, c, 0, depth);
  }

  /** The count is the sentinel or an iteration below `depth`; when the
      sentinel lies outside `0 .. depth-1` the two cases cannot be confused. */
  lemma EscapeCountSpec(z0: Complex, c: Complex, depth: nat, sentinel: int)
    requires sentinel < 0 || depth <= sentinel
    ensures var n := EscapeCount(z0, c, depth, sentinel);
            (n == sentinel <==> forall k :: 0 <= k < depth ==> !EscapedAt(z0, c, k)) &&
            (n != sentinel ==>
               0 <= n < depth && EscapedAt(z0, c, n) &&
               forall k :: 0 <= k < n ==> !EscapedAt(z0, c, k))
  {
    EscapeFromSpec(z0, c, 0, depth);
  }

  /** Starting from 0, the first iterate is `c` itself, so a point outside the
      circle of radius 2 escapes at iteration 0 and only such a point does. */
  lemma ImmediateEscape(c: Complex, depth: nat)
    requires 0 < depth
    ensures FirstEscape(Zero, c, depth) == Some(0) <==> Escaped(c)
  {
    assert Orbit(Zero, c, 1) == c;
    FirstEscapeSpec(Zero, c, depth, 0);
  }

  /** The escape loop of both renderers: iterate from `z0` at most `depth`
      times and stop at the first iterate with squared modulus above 4. */
  method EscapeTime(z0: Complex, c: Complex, depth: nat, sentinel: int) returns (count: int)
    ensures count == EscapeCount(z0, c, depth, sentinel)
  {
    var valx, valy := z0.re, z0.im;
    count := sentinel;
    var i := 0;
    while i < depth
      invariant 0 <= i <= depth
      invariant Complex(valx, valy) == Orbit(z0, c, i)
      invariant FirstEscape(z0, c, depth) == EscapeFrom(z0, c, i, depth)
      invariant count == sentinel
    {
      ghost var z := Complex(valx, valy);
      var nValX := Zx(valx, valy, c.re);
      valy := Zy(valx, valy, c.im);
      valx := nValX;
      assert Complex(valx, valy) == Step(z, c) == Orbit(z0, c, i + 1);
      if Escaped(Complex(valx, valy)) {
        assert EscapedAt(z0, c, i);
        count := i;
        break;
      }
      i := i + 1;
    }
  }
}
