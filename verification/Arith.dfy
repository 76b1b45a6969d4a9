/** Results, bytes, slices and a little arithmetic, shared by the models of the encoder. */
module Arith {

  datatype Option<+T> = None | Some(value: T)

  datatype Result<T> = Ok(value: T) | Err(message: string)

  type Byte = b: nat | b < 256 witness 0

  // CD sectors and 8x8 patterns, in bytes

  const SECTOR: nat := 2048
  const PATTERN_BYTES: nat := 32
  const PATTERNS_PER_SECTOR: nat := 64

  function Pow2(n: nat): (p: nat)
    ensures p >= 1
  {
    if n == 0 then 1 else 2 * Pow2(n - 1)
  }

  lemma {:induction false} Pow2Add(a: nat, b: nat)
    ensures Pow2(a + b) == Pow2(a) * Pow2(b)
  {
    if a == 0 {
    } else {
      Pow2Add(a - 1, b);
      assert Pow2(a + b) == 2 * Pow2((a - 1) + b);
    }
  }

  lemma {:induction false} Pow2Mono(a: nat, b: nat)
    requires a <= b
    ensures Pow2(a) <= Pow2(b)
  {
    if a < b {
      Pow2Mono(a, b - 1);
    }
  }

  lemma MulMono(a: nat, b: nat, u: nat)
    requires a <= b
    ensures a * u <= b * u
  {
    assert b * u == a * u + (b - a) * u;
  }

  lemma DivisionUnique(a: nat, m: nat, q: nat, r: nat)
    requires m > 0 && a == m * q + r && r < m
    ensures a / m == q && a % m == r
  {
    var d := a / m;
    if d < q {
      MulMono(d + 1, q, m);
      assert false;
    }
    if q < d {
      MulMono(q + 1, d, m);
      assert false;
    }
  }

  /** The ceiling of a / b, as the source writes it: (a + b - 1) // b. */
  function CeilDiv(a: nat, b: nat): nat
    requires b > 0
  {
    (a + b - 1) / b
  }

  function Max(a: int, b: int): int { if a >= b then a else b }

  function Min(a: int, b: int): int { if a <= b then a else b }

  /** Python's slice: bounds beyond the end are clipped. */
  function Slice<P>(s: seq<P>, a: nat, b: nat): seq<P> {
    if Min(a, |s|) <= Min(b, |s|) then s[Min(a, |s|)..Min(b, |s|)] else []
  }
}
