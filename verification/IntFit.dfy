/** The integer range check of internal/abi/coerce.go and the narrowing conversions it protects. */
module IntFit {
  /** A Solidity intN or uintN. */
  datatype IntTy = IntTy(signed: bool, bits: int)

  function Pow2(n: nat): (p: int)
    ensures p > 0
  {
    if n == 0 then 1 else 2 * Pow2(n - 1)
  }

  /** checkIntRange. */
  predicate InRange(v: int, t: IntTy) {
    && 0 < t.bits <= 256
    && if t.signed then -Pow2(t.bits - 1) <= v <= Pow2(t.bits - 1) - 1 else 0 <= v <= Pow2(t.bits) - 1
  }

  /** The widths geth gives a machine integer; every other one is a *big.Int. */
  predicate Sized(t: IntTy) {
    t.bits == 8 || t.bits == 16 || t.bits == 32 || t.bits == 64
  }

  /** big.Int.Uint64: the low 64 bits of the magnitude. */
  function Low64(v: int): nat {
    (if v < 0 then -v else v) % Pow2(64)
  }

  /** A bit pattern of `bits` bits as a two's complement number: Go's conversions to intN. */
  function TwosComplement(x: int, bits: nat): int
    requires bits > 0
  {
    var u := x % Pow2(bits);
    if u >= Pow2(bits - 1) then u - Pow2(bits) else u
  }

  /** big.Int.Int64: the low bits as an int64, negated (with wrap-around) for a negative number. */
  function ToInt64(v: int): int {
    var w := TwosComplement(Low64(v), 64);
    if v < 0 then TwosComplement(-w, 64) else w
  }

  /** convertToReflectInt. */
  function Convert(v: int, t: IntTy): int {
    if !Sized(t) then v
    else if t.signed then TwosComplement(ToInt64(v), t.bits)
    else Low64(v) % Pow2(t.bits)
  }

  lemma {:induction false} Halves(n: nat)
    requires n > 0
    ensures Pow2(n) == 2 * Pow2(n - 1)
  {}

  lemma {:induction false} Pow2Mono(m: nat, n: nat)
    requires m <= n
    ensures Pow2(m) <= Pow2(n)
    decreases n
  {
    if m < n {
      Pow2Mono(m, n - 1);
    }
  }

  lemma ModBelow(x: int, m: int)
    requires 0 <= x < m
    ensures x % m == x
  {}

  lemma ModShift(x: int, m: int)
    requires 0 < -x <= m
    ensures x % m == x + m
  {
    assert (x + m) % m == x % m by {
      assert x + m == 1 * m + x;
    }
    if x + m < m { ModBelow(x + m, m); }
  }

  lemma TwosComplementKeeps(x: int, bits: nat)
    requires bits > 0 && -Pow2(bits - 1) <= x < Pow2(bits - 1)
    ensures TwosComplement(x, bits) == x
  {
    Halves(bits);
    if x < 0 { ModShift(x, Pow2(bits)); } else { ModBelow(x, Pow2(bits)); }
  }

  lemma Int64Keeps(v: int)
    requires -Pow2(63) <= v < Pow2(63)
    ensures ToInt64(v) == v
  {
    Halves(64);
    var a := if v < 0 then -v else v;
    ModBelow(a, Pow2(64));
    if a < Pow2(63) {
      TwosComplementKeeps(a, 64);
      if v < 0 { TwosComplementKeeps(v, 64); }
    } else {
      assert TwosComplement(a, 64) == v;
      ModBelow(-v, Pow2(64));
    }
  }

  lemma TwosComplementFits(x: int, bits: nat)
    requires bits > 0
    ensures -Pow2(bits - 1) <= TwosComplement(x, bits) <= Pow2(bits - 1) - 1
  {
    Halves(bits);
  }

  lemma SignedExact(v: int, bits: nat)
    requires 0 < bits <= 64
    ensures -Pow2(bits - 1) <= v <= Pow2(bits - 1) - 1 <==> TwosComplement(ToInt64(v), bits) == v
  {
    TwosComplementFits(ToInt64(v), bits);
    Pow2Mono(bits - 1, 63);
    if -Pow2(bits - 1) <= v <= Pow2(bits - 1) - 1 {
      Int64Keeps(v);
      TwosComplementKeeps(v, bits);
    }
  }

  lemma UnsignedExact(v: int, bits: nat)
    requires 0 < bits <= 64
    ensures 0 <= v <= Pow2(bits) - 1 <==> Low64(v) % Pow2(bits) == v
  {
    Pow2Mono(bits, 64);
    if 0 <= v <= Pow2(bits) - 1 {
      ModBelow(v, Pow2(64));
      ModBelow(v, Pow2(bits));
    }
  }

  /** At every width the check lets through exactly what a word of so many bits can hold, as a two's complement
      number or as a plain one, and it lets no other width through. */
  lemma InRangeIff(v: int, t: IntTy)
    ensures InRange(v, t) <==>
      0 < t.bits <= 256 && (if t.signed then TwosComplement(v, t.bits) == v else v % Pow2(t.bits) == v)
  {
    if 0 < t.bits <= 256 {
      if t.signed {
        TwosComplementFits(v, t.bits);
        if InRange(v, t) { TwosComplementKeeps(v, t.bits); }
      } else if InRange(v, t) {
        ModBelow(v, Pow2(t.bits));
      }
    }
  }

  /** The narrowing conversions lose nothing exactly on the range the check lets through. */
  lemma ConvertExactIff(v: int, t: IntTy)
    requires Sized(t)
    ensures InRange(v, t) <==> Convert(v, t) == v
  {
    if t.signed { SignedExact(v, t.bits); } else { UnsignedExact(v, t.bits); }
  }
}
