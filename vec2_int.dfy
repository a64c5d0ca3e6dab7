/**
 * src/utilities/vec2_int.rs: a pair of 32-bit signed integers with component-wise arithmetic.
 * Rust's i32 arithmetic panics on overflow in debug builds; here every operation requires
 * that its result fits, which the `i32` newtype checks.
 */
module Vec2Ints {
  import opened Wrappers

  newtype i32 = x: int | -0x8000_0000 <= x < 0x8000_0000
  newtype u32 = x: int | 0 <= x < 0x1_0000_0000

  const I32Min: int := -0x8000_0000
  const I32Max: int := 0x7fff_ffff

  predicate IsI32(n: int) {
    I32Min <= n <= I32Max
  }

  datatype Vec2Int = Vec2Int(x: i32, y: i32)

  const Zero: Vec2Int := Vec2Int(0, 0)
  const One: Vec2Int := Vec2Int(1, 1)
  const Up: Vec2Int := Vec2Int(0, 1)
  const Right: Vec2Int := Vec2Int(1, 0)

  const NegativeCastMessage: string := "This is a negative number! Cannot cast to usize intelligently."

  /** `into_raw_usize`: the components as unsigned indices, refused when either is negative. */
  function IntoRawUsize(v: Vec2Int): (r: Result<(nat, nat), string>)
    ensures r.Err? <==> v.x < 0 || v.y < 0
    ensures r.Err? ==> r.error == NegativeCastMessage
    ensures r.Ok? ==> r.value.0 == v.x as int && r.value.1 == v.y as int
  {
    if v.x < 0 || v.y < 0 then
      Err(NegativeCastMessage)
    else
      Ok((v.x as int, v.y as int))
  }

  /** `to_bits`: the components as `[u32; 2]`; the `unwrap` panics on a negative component. */
  function ToBits(v: Vec2Int): (r: seq<u32>)
    requires v.x >= 0 && v.y >= 0
    ensures |r| == 2 && r[0] as int == v.x as int && r[1] as int == v.y as int
  {
    [v.x as int as u32, v.y as int as u32]
  }

  function Max(a: i32, b: i32): i32 {
    if a >= b then a else b
  }

  function Min(a: i32, b: i32): i32 {
    if a <= b then a else b
  }

  /** `x.max(lo).min(hi)` per component, the value `clamp_components` stores. */
  function Clamped(v: Vec2Int, lo: Vec2Int, hi: Vec2Int): (r: Vec2Int)
    ensures lo.x <= hi.x ==> lo.x <= r.x <= hi.x
    ensures lo.y <= hi.y ==> lo.y <= r.y <= hi.y
    ensures lo.x <= v.x <= hi.x ==> r.x == v.x
    ensures lo.y <= v.y <= hi.y ==> r.y == v.y
    ensures lo.x <= hi.x && v.x < lo.x ==> r.x == lo.x
    ensures hi.x < v.x ==> r.x == hi.x
    ensures lo.y <= hi.y && v.y < lo.y ==> r.y == lo.y
    ensures hi.y < v.y ==> r.y == hi.y
    ensures r.x <= hi.x && r.y <= hi.y
  {
    Vec2Int(Min(Max(v.x, lo.x), hi.x), Min(Max(v.y, lo.y), hi.y))
  }

  /** Clamping twice is clamping once, whatever the bounds (with lo > hi both give hi). */
  lemma ClampIdempotent(v: Vec2Int, lo: Vec2Int, hi: Vec2Int)
    ensures Clamped(Clamped(v, lo, hi), lo, hi) == Clamped(v, lo, hi)
  {
  }

  /** `clamp_components(&mut self, ..)`: overwrites x, then y, of the receiver. */
  method ClampComponents(self: Vec2Int, minVec: Vec2Int, maxVec: Vec2Int) returns (updated: Vec2Int)
    ensures updated == Clamped(self, minVec, maxVec)
    ensures minVec.x <= maxVec.x && minVec.y <= maxVec.y ==>
      minVec.x <= updated.x <= maxVec.x && minVec.y <= updated.y <= maxVec.y
  {
    updated := self;
    updated := updated.(x := Min(Max(updated.x, minVec.x), maxVec.x));
    updated := updated.(y := Min(Max(updated.y, minVec.y), maxVec.y));
  }

  predicate CanAdd(a: Vec2Int, b: Vec2Int) {
    IsI32(a.x as int + b.x as int) && IsI32(a.y as int + b.y as int)
  }

  predicate CanSub(a: Vec2Int, b: Vec2Int) {
    IsI32(a.x as int - b.x as int) && IsI32(a.y as int - b.y as int)
  }

  predicate CanMul(a: Vec2Int, k: i32) {
    IsI32(a.x as int * k as int) && IsI32(a.y as int * k as int)
  }

  /** `Add`: component-wise sum. */
  function Add(a: Vec2Int, b: Vec2Int): (r: Vec2Int)
    requires CanAdd(a, b)
    ensures r.x as int == a.x as int + b.x as int && r.y as int == a.y as int + b.y as int
  {
    Vec2Int(a.x + b.x, a.y + b.y)
  }

  /** `Sub`: component-wise difference. */
  function Sub(a: Vec2Int, b: Vec2Int): (r: Vec2Int)
    requires CanSub(a, b)
    ensures r.x as int == a.x as int - b.x as int && r.y as int == a.y as int - b.y as int
  {
    Vec2Int(a.x - b.x, a.y - b.y)
  }

  /** `Mul<i32>`: each component scaled. */
  function Mul(a: Vec2Int, k: i32): (r: Vec2Int)
    requires CanMul(a, k)
    ensures r.x as int == a.x as int * k as int && r.y as int == a.y as int * k as int
  {
    Vec2Int((a.x as int * k as int) as i32, (a.y as int * k as int) as i32)
  }

  /** Subtracting what was added gives back the original vector. */
  lemma AddThenSub(a: Vec2Int, b: Vec2Int)
    requires CanAdd(a, b)
    ensures CanSub(Add(a, b), b) && Sub(Add(a, b), b) == a
  {
  }

  /**
   * Rust's integer `/`: the quotient truncated toward zero (Dafny's own `/` is Euclidean and
   * differs for negative dividends).
   */
  function TruncDiv(a: int, b: int): (q: int)
    requires b != 0
    ensures var rem := a - q * b; (rem == 0 || (rem > 0) == (a > 0)) && -Abs(b) < rem < Abs(b)
    ensures Abs(q) <= Abs(a)
  {
    var m := Abs(a) / Abs(b);
    TruncRemainder(a, b, m);
    if (a < 0) == (b < 0) then m else -m
  }

  /** The remainder left by the sign-adjusted quotient of magnitudes `m`. */
  lemma TruncRemainder(a: int, b: int, m: int)
    requires b != 0 && m == Abs(a) / Abs(b)
    ensures var q := if (a < 0) == (b < 0) then m else -m;
      var rem := a - q * b;
      (rem == 0 || (rem > 0) == (a > 0)) && -Abs(b) < rem < Abs(b) && Abs(q) <= Abs(a)
  {
    var magA, magB := Abs(a), Abs(b);
    DivRemainder(magA, magB);
    DivAtMost(magA, magB);
    assert 0 <= m <= magA;
    assert 0 <= magA - m * magB < magB;
    SignedRemainder(a, b, m);
  }

  /** The same, for any magnitude quotient `m`, without division. */
  lemma SignedRemainder(a: int, b: int, m: int)
    requires b != 0 && 0 <= m <= Abs(a) && 0 <= Abs(a) - m * Abs(b) < Abs(b)
    ensures var q := if (a < 0) == (b < 0) then m else -m;
      var rem := a - q * b;
      (rem == 0 || (rem > 0) == (a > 0)) && -Abs(b) < rem < Abs(b) && Abs(q) <= Abs(a)
  {
    SignedProduct(m, b);
  }

  function Abs(n: int): int {
    if n < 0 then -n else n
  }

  /** The quotient of magnitudes leaves a remainder below the divisor. */
  lemma DivRemainder(a: int, b: int)
    requires a >= 0 && b > 0
    ensures 0 <= a - (a / b) * b < b
  {
  }

  /** The quotient of magnitudes is at most the dividend. */
  lemma DivAtMost(a: int, b: int)
    requires a >= 0 && b > 0
    ensures 0 <= a / b <= a
  {
    DivRemainder(a, b);
    MulAtLeast(a / b, b);
  }

  lemma MulAtLeast(q: int, b: int)
    requires q >= 0 && b >= 1
    ensures q * b >= q
  {
  }

  /** How the sign of the divisor moves a product of a magnitude. */
  lemma SignedProduct(m: int, b: int)
    ensures m * b == (if b < 0 then -(m * Abs(b)) else m * Abs(b))
    ensures (-m) * b == -(m * b)
  {
  }

  predicate CanDiv(a: Vec2Int, k: i32) {
    k != 0 && !(k == -1 && (a.x as int == I32Min || a.y as int == I32Min))
  }

  /** `Div<i32>`: each component divided by `rhs`, truncating; division by zero panics, as does i32::MIN / -1. */
  function Div(a: Vec2Int, rhs: i32): (r: Vec2Int)
    requires CanDiv(a, rhs)
    ensures r.x as int == TruncDiv(a.x as int, rhs as int) && r.y as int == TruncDiv(a.y as int, rhs as int)
  {
    DivFits(a.x as int, rhs as int);
    DivFits(a.y as int, rhs as int);
    Vec2Int(TruncDiv(a.x as int, rhs as int) as i32, TruncDiv(a.y as int, rhs as int) as i32)
  }

  lemma DivFits(a: int, k: int)
    requires IsI32(a) && IsI32(k) && k != 0 && !(k == -1 && a == I32Min)
    ensures IsI32(TruncDiv(a, k))
  {
    if k == -1 {
      assert TruncDiv(a, k) == -a;
    }
  }

  /** `add_assign`: updates x, then y, of the receiver. */
  method AddAssign(self: Vec2Int, rhs: Vec2Int) returns (updated: Vec2Int)
    requires CanAdd(self, rhs)
    ensures updated == Add(self, rhs)
  {
    updated := self;
    updated := updated.(x := updated.x + rhs.x);
    updated := updated.(y := updated.y + rhs.y);
  }

  /** `sub_assign`. */
  method SubAssign(self: Vec2Int, rhs: Vec2Int) returns (updated: Vec2Int)
    requires CanSub(self, rhs)
    ensures updated == Sub(self, rhs)
  {
    updated := self;
    updated := updated.(x := updated.x - rhs.x);
    updated := updated.(y := updated.y - rhs.y);
  }

  /** `div_assign`. */
  method DivAssign(self: Vec2Int, rhs: i32) returns (updated: Vec2Int)
    requires CanDiv(self, rhs)
    ensures updated == Div(self, rhs)
  {
    DivFits(self.x as int, rhs as int);
    DivFits(self.y as int, rhs as int);
    updated := self;
    updated := updated.(x := TruncDiv(updated.x as int, rhs as int) as i32);
    updated := updated.(y := TruncDiv(updated.y as int, rhs as int) as i32);
  }

  /** `mul_assign`. */
  method MulAssign(self: Vec2Int, rhs: i32) returns (updated: Vec2Int)
    requires CanMul(self, rhs)
    ensures updated == Mul(self, rhs)
  {
    updated := self;
    updated := updated.(x := (updated.x as int * rhs as int) as i32);
    updated := updated.(y := (updated.y as int * rhs as int) as i32);
  }

  /** `From<[i32; 2]> for Vec2Int`. */
  function FromArray(w: seq<i32>): (v: Vec2Int)
    requires |w| == 2
    ensures v.x == w[0] && v.y == w[1]
  {
    Vec2Int(w[0], w[1])
  }

  /** `From<Vec2Int> for [i32; 2]`. */
  function ToArray(v: Vec2Int): (w: seq<i32>)
    ensures |w| == 2 && w[0] == v.x && w[1] == v.y
  {
    [v.x, v.y]
  }

  lemma ArrayRoundTrip(v: Vec2Int, w: seq<i32>)
    requires |w| == 2
    ensures FromArray(ToArray(v)) == v
    ensures ToArray(FromArray(w)) == w
  {
  }
}
