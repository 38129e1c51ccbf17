/** The ULID encoder of internal/journal/id.go: a 128-bit value as 26 base-32 symbols. */
module Ulid {
  import opened Text

  const CROCKFORD: string := "0123456789ABCDEFGHJKMNPQRSTVWXYZ"

  /** `run` is the chars from `lo` on, without a gap. */
  predicate RunsFrom(run: string, lo: char) {
    forall k | 0 <= k < |run| :: run[k] as int == lo as int + k
  }

  lemma InRun(run: string, lo: char, c: char)
    requires RunsFrom(run, lo)
    ensures c in run <==> lo as int <= c as int < lo as int + |run|
  {
    if lo as int <= c as int < lo as int + |run| {
      assert run[c as int - lo as int] == c;
    }
  }

  /** The alphabet is the digits and the capital letters without I, L, O and U. */
  lemma AlphabetIff(c: char)
    ensures c in CROCKFORD <==>
      ('0' <= c <= '9') || ('A' <= c <= 'Z' && c != 'I' && c != 'L' && c != 'O' && c != 'U')
  {
    var digits, aToH, jToK, mToN, pToT, vToZ := "0123456789", "ABCDEFGH", "JK", "MN", "PQRST", "VWXYZ";
    assert CROCKFORD == digits + aToH + jToK + mToN + pToT + vToZ;
    InRun(digits, '0', c);
    InRun(aToH, 'A', c);
    InRun(jToK, 'J', c);
    InRun(mToN, 'M', c);
    InRun(pToT, 'P', c);
    InRun(vToZ, 'V', c);
  }

  function Symbol(s: bv8): char
    requires s < 32
  {
    CROCKFORD[s as int]
  }

  // --- numbers and order ---

  function Pow(base: nat, n: nat): nat {
    if n == 0 then 1 else base * Pow(base, n - 1)
  }

  /** The number a digit sequence denotes, most significant digit first. */
  function Number(s: seq<nat>, base: nat): nat {
    if s == [] then 0 else s[0] * Pow(base, |s| - 1) + Number(s[1..], base)
  }

  predicate DigitsBelow(s: seq<nat>, base: nat) {
    forall k | 0 <= k < |s| :: s[k] < base
  }

  function Ints(s: seq<bv8>): (r: seq<nat>)
    ensures |r| == |s| && forall k | 0 <= k < |s| :: r[k] == s[k] as nat
  {
    seq(|s|, k requires 0 <= k < |s| => s[k] as nat)
  }

  lemma IntsConcat(s: seq<bv8>, t: seq<bv8>)
    ensures Ints(s + t) == Ints(s) + Ints(t)
  {}

  /** Go's order of two strings of one length. */
  predicate StringBefore(s: string, t: string)
    requires |s| == |t|
  {
    s != "" && (s[0] < t[0] || (s[0] == t[0] && StringBefore(s[1..], t[1..])))
  }

  lemma AtMost(a: int, b: int, p: int)
    requires a <= b && p >= 0
    ensures a * p <= b * p
  {}

  lemma {:induction false} NumberBound(s: seq<nat>, base: nat)
    requires DigitsBelow(s, base) && base > 0
    ensures Number(s, base) < Pow(base, |s|)
  {
    if s != [] {
      NumberBound(s[1..], base);
      HeadDecides(s[0], Number(s[1..], base), base, 0, Pow(base, |s| - 1));
    }
  }

  /** The leading digit decides. */
  lemma HeadDecides(x: int, u: int, y: int, v: int, p: int)
    requires x < y && 0 <= u < p && 0 <= v < p
    ensures x * p + u < y * p + v
  {
    AtMost(x + 1, y, p);
    assert (x + 1) * p == x * p + p;
  }

  lemma {:induction false} NumberConcat(s: seq<nat>, t: seq<nat>, base: nat)
    ensures Number(s + t, base) == Number(s, base) * Pow(base, |t|) + Number(t, base)
  {
    if s == [] {
      assert s + t == t;
    } else {
      assert (s + t)[1..] == s[1..] + t;
      NumberConcat(s[1..], t, base);
      PowAdd(base, |s| - 1, |t|);
      Expand(s[0], Pow(base, |s| - 1), Pow(base, |t|), Number(s[1..], base));
    }
  }

  lemma Expand(d: int, p: int, q: int, n: int)
    ensures (d * p + n) * q == d * (p * q) + n * q
  {}

  lemma {:induction false} PowAdd(base: nat, m: nat, n: nat)
    ensures Pow(base, m + n) == Pow(base, m) * Pow(base, n)
  {
    if m > 0 {
      PowAdd(base, m - 1, n);
      Expand(base, Pow(base, m - 1), Pow(base, n), 0);
    }
  }

  lemma SymbolOrder(s: bv8, t: bv8)
    requires s < 32 && t < 32
    ensures s as int < t as int <==> Symbol(s) < Symbol(t)
    ensures s as int == t as int <==> Symbol(s) == Symbol(t)
  {
    assert forall i, j | 0 <= i < j < 32 :: CROCKFORD[i] < CROCKFORD[j];
  }

  // --- the encoding ---

  /** Every element is a five-bit group. */
  predicate Fits(s: seq<bv8>) {
    forall k | 0 <= k < |s| :: s[k] < 32
  }

  /** Five bytes as eight five-bit groups: the pattern encodeULID repeats three times. */
  function Groups(b: seq<bv8>): (r: seq<bv8>)
    requires |b| == 5
    ensures |r| == 8 && Fits(r)
  {
    [(b[0] & 0xF8) >> 3,
     ((b[0] & 0x07) << 2) | ((b[1] & 0xC0) >> 6),
     (b[1] & 0x3E) >> 1,
     ((b[1] & 0x01) << 4) | ((b[2] & 0xF0) >> 4),
     ((b[2] & 0x0F) << 1) | ((b[3] & 0x80) >> 7),
     (b[3] & 0x7C) >> 2,
     ((b[3] & 0x03) << 3) | ((b[4] & 0xE0) >> 5),
     b[4] & 0x1F]
  }

  function First(b: bv8): (r: seq<bv8>)
    ensures |r| == 2 && Fits(r)
  {
    [(b & 0xE0) >> 5, b & 0x1F]
  }

  /** The 26 five-bit groups of 16 bytes. */
  function AllGroups(b: seq<bv8>): (r: seq<bv8>)
    requires |b| == 16
    ensures |r| == 26 && Fits(r)
  {
    First(b[0]) + (Groups(b[1..6]) + (Groups(b[6..11]) + Groups(b[11..])))
  }

  function Spell(groups: seq<bv8>): (s: string)
    requires Fits(groups)
    ensures |s| == |groups|
  {
    if groups == [] then "" else [Symbol(groups[0])] + Spell(groups[1..])
  }

  function Encode(b: seq<bv8>): (s: string)
    requires |b| == 16
    ensures |s| == 26
  {
    Spell(AllGroups(b))
  }

  // --- the encoder ---

  lemma {:induction false} SpellAt(groups: seq<bv8>, k: nat)
    requires k < |groups| && Fits(groups)
    ensures Spell(groups)[k] == Symbol(groups[k])
  {
    if k > 0 {
      SpellAt(groups[1..], k - 1);
    }
  }

  lemma {:induction false} SpellConcat(s: seq<bv8>, t: seq<bv8>)
    requires Fits(s) && Fits(t)
    ensures Spell(s + t) == Spell(s) + Spell(t)
  {
    if s == [] {
      assert s + t == t;
    } else {
      SpellConcat(s[1..], t);
      assert (s + t)[1..] == s[1..] + t;
    }
  }

  lemma SpellParts(b: seq<bv8>, first: string, p: string, q: string, r: string)
    requires |b| == 16 && first == Spell(First(b[0]))
    requires p == Spell(Groups(b[1..6])) && q == Spell(Groups(b[6..11])) && r == Spell(Groups(b[11..16]))
    ensures first + p + q + r == Encode(b)
  {
    assert b[11..16] == b[11..];
    SpellFour(First(b[0]), Groups(b[1..6]), Groups(b[6..11]), Groups(b[11..]));
  }

  lemma SpellFour(f: seq<bv8>, p: seq<bv8>, q: seq<bv8>, r: seq<bv8>)
    requires Fits(f) && Fits(p) && Fits(q) && Fits(r)
    ensures Fits(f + (p + (q + r)))
    ensures Spell(f + (p + (q + r))) == Spell(f) + Spell(p) + Spell(q) + Spell(r)
  {
    SpellConcat(q, r);
    SpellConcat(p, q + r);
    SpellConcat(f, p + (q + r));
    Regrouped(Spell(f), Spell(p), Spell(q), Spell(r));
  }

  lemma Regrouped(f: string, p: string, q: string, r: string)
    ensures f + (p + (q + r)) == f + p + q + r
  {}

  /** encodeULID, filling the symbol array. */
  method EncodeULID(b: array<bv8>) returns (s: string)
    requires b.Length == 16
    ensures s == Encode(b[..])
  {
    var dst := new char[26];
    EncodeFirst(b[0], dst);
    EncodeGroups(b[1..6], dst, 2);
    assert dst[..10] == dst[..2] + dst[2..10];
    EncodeGroups(b[6..11], dst, 10);
    assert dst[..18] == dst[..10] + dst[10..18];
    EncodeGroups(b[11..16], dst, 18);
    assert dst[..] == dst[..18] + dst[18..26];
    ghost var bytes := b[..];
    assert bytes[1..6] == b[1..6] && bytes[6..11] == b[6..11] && bytes[11..16] == b[11..16];
    s := dst[..];
    SpellParts(bytes, Spell(First(b[0])), Spell(Groups(b[1..6])), Spell(Groups(b[6..11])), Spell(Groups(b[11..16])));
  }

  method EncodeFirst(b: bv8, dst: array<char>)
    requires 2 <= dst.Length
    modifies dst
    ensures dst[..2] == Spell(First(b))
  {
    dst[0] := Symbol((b & 0xE0) >> 5);
    dst[1] := Symbol(b & 0x1F);
    SpellAt(First(b), 0);
    SpellAt(First(b), 1);
  }

  /** Eight of encodeULID's assignments: five bytes into the eight symbols at `j`. */
  method EncodeGroups(b: seq<bv8>, dst: array<char>, j: nat)
    requires |b| == 5 && j + 8 <= dst.Length
    modifies dst
    ensures dst[j..j + 8] == Spell(Groups(b))
    ensures dst[..j] == old(dst[..j])
  {
    var g := Groups(b);
    for k := 0 to 8
      invariant dst[j..j + k] == Spell(g)[..k]
      invariant dst[..j] == old(dst[..j])
    {
      SpellAt(g, k);
      dst[j + k] := Symbol(g[k]);
    }
    assert Spell(g)[..8] == Spell(g);
  }

  // --- the symbols are the base-32 digits of the value ---

  /** The groups in integer arithmetic. */
  function IntGroups(b: seq<nat>): (r: seq<nat>)
    requires |b| == 5
    ensures |r| == 8
  {
    [b[0] / 8, (b[0] % 8) * 4 + b[1] / 64, (b[1] / 2) % 32, (b[1] % 2) * 16 + b[2] / 16,
     (b[2] % 16) * 2 + b[3] / 128, (b[3] / 4) % 32, (b[3] % 4) * 8 + b[4] / 32, b[4] % 32]
  }

  lemma Cut2(b: bv8)
    ensures ((b & 0xC0) >> 6) as int == b as int / 64 && (b & 0x01) as int == b as int % 2
  {}

  lemma Cut3(b: bv8)
    ensures ((b & 0xF8) >> 3) as int == b as int / 8 && (b & 0x07) as int == b as int % 8
  {}

  lemma Cut4(b: bv8)
    ensures ((b & 0xF0) >> 4) as int == b as int / 16 && (b & 0x0F) as int == b as int % 16
  {}

  lemma Cut5(b: bv8)
    ensures ((b & 0xE0) >> 5) as int == b as int / 32 && (b & 0x1F) as int == b as int % 32
  {}

  lemma Cut7(b: bv8)
    ensures ((b & 0x80) >> 7) as int == b as int / 128 && (b & 0x03) as int == b as int % 4
  {}

  lemma MiddleField1(b: bv8)
    ensures ((b & 0x3E) >> 1) as int == (b as int / 2) % 32
  {
    var x, y, z := (b & 0xC0) >> 6, (b & 0x3E) >> 1, b & 0x01;
    Sum1(b);
    MiddleOf(b as int, x as int, y as int, z as int, 2);
  }

  lemma MiddleField2(b: bv8)
    ensures ((b & 0x7C) >> 2) as int == (b as int / 4) % 32
  {
    var x, y, z := (b & 0x80) >> 7, (b & 0x7C) >> 2, b & 0x03;
    Sum2(b);
    MiddleOf(b as int, x as int, y as int, z as int, 4);
  }

  lemma Sum1(b: bv8)
    ensures b as int == 64 * (((b & 0xC0) >> 6) as int) + 2 * (((b & 0x3E) >> 1) as int) + (b & 0x01) as int
    ensures ((b & 0x3E) >> 1) as int < 32 && (b & 0x01) as int < 2
  {}

  lemma Sum2(b: bv8)
    ensures b as int == 128 * (((b & 0x80) >> 7) as int) + 4 * (((b & 0x7C) >> 2) as int) + (b & 0x03) as int
    ensures ((b & 0x7C) >> 2) as int < 32 && (b & 0x03) as int < 4
  {}

  lemma MiddleOf(b: int, x: int, y: int, z: int, w: int)
    requires w == 2 || w == 4
    requires b == 32 * w * x + w * y + z && 0 <= x && 0 <= y < 32 && 0 <= z < w
    ensures (b / w) % 32 == y
  {
    if w == 2 { assert b / 2 == 32 * x + y; } else { assert b / 4 == 32 * x + y; }
  }

  lemma Join1(p: bv8, q: bv8)
    requires p < 16 && q < 2
    ensures ((p << 1) | q) as int == p as int * 2 + q as int
  {}

  lemma Join2(p: bv8, q: bv8)
    requires p < 8 && q < 4
    ensures ((p << 2) | q) as int == p as int * 4 + q as int
  {}

  lemma Join3(p: bv8, q: bv8)
    requires p < 4 && q < 8
    ensures ((p << 3) | q) as int == p as int * 8 + q as int
  {}

  lemma Join4(p: bv8, q: bv8)
    requires p < 2 && q < 16
    ensures ((p << 4) | q) as int == p as int * 16 + q as int
  {}

  lemma Group1(a: bv8, b: bv8)
    ensures (((a & 0x07) << 2) | ((b & 0xC0) >> 6)) as int == (a as int % 8) * 4 + b as int / 64
  {
    Join2(a & 0x07, (b & 0xC0) >> 6);
    Cut3(a);
    Cut2(b);
  }

  lemma Group3(b: bv8, c: bv8)
    ensures (((b & 0x01) << 4) | ((c & 0xF0) >> 4)) as int == (b as int % 2) * 16 + c as int / 16
  {
    Join4(b & 0x01, (c & 0xF0) >> 4);
    Cut2(b);
    Cut4(c);
  }

  lemma Group4(c: bv8, d: bv8)
    ensures (((c & 0x0F) << 1) | ((d & 0x80) >> 7)) as int == (c as int % 16) * 2 + d as int / 128
  {
    Join1(c & 0x0F, (d & 0x80) >> 7);
    Cut4(c);
    Cut7(d);
  }

  lemma Group6(d: bv8, e: bv8)
    ensures (((d & 0x03) << 3) | ((e & 0xE0) >> 5)) as int == (d as int % 4) * 8 + e as int / 32
  {
    Join3(d & 0x03, (e & 0xE0) >> 5);
    Cut7(d);
    Cut5(e);
  }

  /** The masks and shifts are division and remainder. */
  lemma GroupsAreArithmetic(b: seq<bv8>)
    requires |b| == 5
    ensures Ints(Groups(b)) == IntGroups(Ints(b))
  {
    var n := IntGroups(Ints(b));
    GroupInts(b[0], b[1], b[2], b[3], b[4]);
    Entries(Groups(b), n);
  }

  lemma Entries(g: seq<bv8>, n: seq<nat>)
    requires |g| == |n| == 8
    requires g[0] as nat == n[0] && g[1] as nat == n[1] && g[2] as nat == n[2] && g[3] as nat == n[3]
    requires g[4] as nat == n[4] && g[5] as nat == n[5] && g[6] as nat == n[6] && g[7] as nat == n[7]
    ensures Ints(g) == n
  {}

  lemma GroupInts(a: bv8, b: bv8, c: bv8, d: bv8, e: bv8)
    ensures ((a & 0xF8) >> 3) as int == a as int / 8
    ensures (((a & 0x07) << 2) | ((b & 0xC0) >> 6)) as int == (a as int % 8) * 4 + b as int / 64
    ensures ((b & 0x3E) >> 1) as int == (b as int / 2) % 32
    ensures (((b & 0x01) << 4) | ((c & 0xF0) >> 4)) as int == (b as int % 2) * 16 + c as int / 16
    ensures (((c & 0x0F) << 1) | ((d & 0x80) >> 7)) as int == (c as int % 16) * 2 + d as int / 128
    ensures ((d & 0x7C) >> 2) as int == (d as int / 4) % 32
    ensures (((d & 0x03) << 3) | ((e & 0xE0) >> 5)) as int == (d as int % 4) * 8 + e as int / 32
    ensures (e & 0x1F) as int == e as int % 32
  {
    Cut3(a);
    Group1(a, b);
    MiddleField1(b);
    Group3(b, c);
    Group4(c, d);
    MiddleField2(d);
    Group6(d, e);
    Cut5(e);
  }

  lemma {:induction false} Number5(b: seq<nat>)
    requires |b| == 5
    ensures Number(b, 256) == 0x1_0000_0000 * b[0] + 0x100_0000 * b[1] + 0x1_0000 * b[2] + 0x100 * b[3] + b[4]
  {
    NumberFrom(b, 256, 4);
    NumberFrom(b, 256, 3);
    NumberFrom(b, 256, 2);
    NumberFrom(b, 256, 1);
    NumberFrom(b, 256, 0);
    SmallPowers256();
  }

  lemma SmallPowers256()
    ensures Pow(256, 0) == 1 && Pow(256, 1) == 0x100 && Pow(256, 2) == 0x1_0000 && Pow(256, 3) == 0x100_0000
    ensures Pow(256, 4) == 0x1_0000_0000 && Pow(256, 5) == 0x100_0000_0000
  {
    assert Pow(256, 2) == 0x1_0000;
    assert Pow(256, 4) == 256 * (256 * Pow(256, 2));
  }

  lemma SmallPowers32()
    ensures Pow(32, 0) == 1 && Pow(32, 1) == 0x20 && Pow(32, 2) == 0x400 && Pow(32, 3) == 0x8000
    ensures Pow(32, 4) == 0x10_0000 && Pow(32, 5) == 0x200_0000 && Pow(32, 6) == 0x4000_0000
    ensures Pow(32, 7) == 0x8_0000_0000 && Pow(32, 8) == 0x100_0000_0000
  {
    assert Pow(32, 2) == 0x400;
    assert Pow(32, 4) == 32 * (32 * Pow(32, 2));
    assert Pow(32, 6) == 32 * (32 * Pow(32, 4));
  }

  lemma NumberFrom(b: seq<nat>, base: nat, i: nat)
    requires i < |b|
    ensures Number(b[i..], base) == b[i] * Pow(base, |b| - i - 1) + Number(b[i + 1..], base)
    ensures i == 0 ==> b[i..] == b
    ensures i == |b| - 1 ==> Number(b[i + 1..], base) == 0
  {
    assert b[i..][1..] == b[i + 1..];
  }

  lemma Number8(g: seq<nat>)
    requires |g| == 8
    ensures Number(g, 32) == 0x8_0000_0000 * g[0] + 0x4000_0000 * g[1] + 0x200_0000 * g[2] + 0x10_0000 * g[3]
      + 0x8000 * g[4] + 0x400 * g[5] + 0x20 * g[6] + g[7]
  {
    NumberFrom(g, 32, 7);
    NumberFrom(g, 32, 6);
    NumberFrom(g, 32, 5);
    NumberFrom(g, 32, 4);
    NumberFrom(g, 32, 3);
    NumberFrom(g, 32, 2);
    NumberFrom(g, 32, 1);
    NumberFrom(g, 32, 0);
    SmallPowers32();
  }

  lemma ByteSums(b: nat)
    requires b < 256
    ensures b == 8 * (b / 8) + b % 8
    ensures b == 64 * (b / 64) + 2 * ((b / 2) % 32) + b % 2
    ensures b == 16 * (b / 16) + b % 16
    ensures b == 128 * (b / 128) + 4 * ((b / 4) % 32) + b % 4
    ensures b == 32 * (b / 32) + b % 32
  {}

  lemma GroupsKeepNumber(b: seq<nat>)
    requires |b| == 5 && DigitsBelow(b, 256)
    ensures Number(IntGroups(b), 32) == Number(b, 256)
  {
    Number5(b);
    Number8(IntGroups(b));
    Regroup(b[0], b[1], b[2], b[3], b[4]);
  }

  lemma Regroup(a: nat, b: nat, c: nat, d: nat, e: nat)
    requires a < 256 && b < 256 && c < 256 && d < 256 && e < 256
    ensures 0x8_0000_0000 * (a / 8) + 0x4000_0000 * ((a % 8) * 4 + b / 64) + 0x200_0000 * ((b / 2) % 32)
      + 0x10_0000 * ((b % 2) * 16 + c / 16) + 0x8000 * ((c % 16) * 2 + d / 128) + 0x400 * ((d / 4) % 32)
      + 0x20 * ((d % 4) * 8 + e / 32) + e % 32
      == 0x1_0000_0000 * a + 0x100_0000 * b + 0x1_0000 * c + 0x100 * d + e
  {
    ByteSums(a);
    ByteSums(b);
    ByteSums(c);
    ByteSums(d);
    ByteSums(e);
  }

  lemma BlockKeepsNumber(b: seq<bv8>)
    requires |b| == 5
    ensures Number(Ints(Groups(b)), 32) == Number(Ints(b), 256)
  {
    GroupsAreArithmetic(b);
    GroupsKeepNumber(Ints(b));
  }

  lemma FirstKeepsNumber(b: bv8)
    ensures Number(Ints(First(b)), 32) == Number(Ints([b]), 256)
  {
    Cut5(b);
    assert Ints(First(b)) == [b as nat / 32, b as nat % 32];
    assert Ints([b]) == [b as nat];
    TwoDigits(b as nat);
  }

  lemma TwoDigits(b: nat)
    requires b < 256
    ensures Number([b / 32, b % 32], 32) == Number([b], 256)
  {
    NumberFrom([b / 32, b % 32], 32, 0);
    NumberFrom([b / 32, b % 32], 32, 1);
    NumberFrom([b], 256, 0);
    SmallPowers32();
    SmallPowers256();
  }

  /** Number kept, part by part. */
  predicate Keeps(g: seq<bv8>, b: seq<bv8>) {
    Number(Ints(g), 32) == Number(Ints(b), 256)
  }

  lemma KeepConcat(g: seq<bv8>, b: seq<bv8>, g': seq<bv8>, b': seq<bv8>)
    requires Keeps(g, b) && Keeps(g', b') && Pow(32, |g'|) == Pow(256, |b'|)
    ensures Keeps(g + g', b + b')
  {
    IntsConcat(g, g');
    IntsConcat(b, b');
    NumberConcat(Ints(g), Ints(g'), 32);
    NumberConcat(Ints(b), Ints(b'), 256);
  }

  lemma {:induction false} SameWeight(n: nat)
    ensures Pow(32, 8 * n) == Pow(256, 5 * n)
  {
    if n > 0 {
      SameWeight(n - 1);
      PowAdd(32, 8, 8 * (n - 1));
      PowAdd(256, 5, 5 * (n - 1));
      SmallPowers32();
      SmallPowers256();
    }
  }

  /** The 26 symbols spell, in base 32, the number the 16 bytes spell in base 256. */
  lemma EncodeIsBase32(b: seq<bv8>)
    requires |b| == 16
    ensures Number(Ints(AllGroups(b)), 32) == Number(Ints(b), 256)
  {
    var p, q, r := b[1..6], b[6..11], b[11..];
    BlockKeepsNumber(p);
    BlockKeepsNumber(q);
    BlockKeepsNumber(r);
    FirstKeepsNumber(b[0]);
    AllKeeps(First(b[0]), [b[0]], Groups(p), p, Groups(q), q, Groups(r), r);
    assert [b[0]] + (p + (q + r)) == b;
  }

  lemma AllKeeps(f: seq<bv8>, a: seq<bv8>, gp: seq<bv8>, p: seq<bv8>, gq: seq<bv8>, q: seq<bv8>, gr: seq<bv8>, r: seq<bv8>)
    requires Keeps(f, a) && Keeps(gp, p) && Keeps(gq, q) && Keeps(gr, r)
    requires |gp| == |gq| == |gr| == 8 && |p| == |q| == |r| == 5
    ensures Keeps(f + (gp + (gq + gr)), a + (p + (q + r)))
  {
    SameWeight(1);
    SameWeight(2);
    SameWeight(3);
    KeepConcat(gq, q, gr, r);
    KeepConcat(gp, p, gq + gr, q + r);
    KeepConcat(f, a, gp + (gq + gr), p + (q + r));
  }

  // --- order ---

  lemma {:induction false} SpellOrder(s: seq<bv8>, t: seq<bv8>)
    requires |s| == |t| && Fits(s) && Fits(t)
    ensures StringBefore(Spell(s), Spell(t)) <==> Number(Ints(s), 32) < Number(Ints(t), 32)
    ensures Spell(s) == Spell(t) <==> Number(Ints(s), 32) == Number(Ints(t), 32)
  {
    if s != [] {
      SpellOrder(s[1..], t[1..]);
      SpellHead(s, t);
      assert Ints(s)[1..] == Ints(s[1..]) && Ints(t)[1..] == Ints(t[1..]);
      GroupsBelow(s);
      GroupsBelow(t);
      HeadOrder(Ints(s), Ints(t), 32);
    }
  }

  lemma SpellHead(s: seq<bv8>, t: seq<bv8>)
    requires |s| == |t| > 0 && Fits(s) && Fits(t)
    ensures StringBefore(Spell(s), Spell(t)) <==>
      Ints(s)[0] < Ints(t)[0] || (Ints(s)[0] == Ints(t)[0] && StringBefore(Spell(s[1..]), Spell(t[1..])))
    ensures Spell(s) == Spell(t) <==> Ints(s)[0] == Ints(t)[0] && Spell(s[1..]) == Spell(t[1..])
  {
    SymbolOrder(s[0], t[0]);
    ConsOrder(Symbol(s[0]), Spell(s[1..]), Symbol(t[0]), Spell(t[1..]));
  }

  lemma ConsOrder(x: char, s: string, y: char, t: string)
    requires |s| == |t|
    ensures StringBefore([x] + s, [y] + t) <==> x < y || (x == y && StringBefore(s, t))
    ensures [x] + s == [y] + t <==> x == y && s == t
  {
    assert ([x] + s)[1..] == s && ([y] + t)[1..] == t;
    assert ([x] + s)[0] == x && ([y] + t)[0] == y;
  }

  lemma GroupsBelow(s: seq<bv8>)
    requires Fits(s)
    ensures DigitsBelow(Ints(s), 32)
  {}

  lemma BytesBelow(s: seq<bv8>)
    ensures DigitsBelow(Ints(s), 256)
  {}

  lemma HeadOrder(s: seq<nat>, t: seq<nat>, base: nat)
    requires |s| == |t| > 0 && base > 0 && DigitsBelow(s, base) && DigitsBelow(t, base)
    ensures Number(s, base) < Number(t, base) <==>
      s[0] < t[0] || (s[0] == t[0] && Number(s[1..], base) < Number(t[1..], base))
    ensures Number(s, base) == Number(t, base) <==> s[0] == t[0] && Number(s[1..], base) == Number(t[1..], base)
  {
    var u, v, p := Number(s[1..], base), Number(t[1..], base), Pow(base, |s| - 1);
    NumberBound(s[1..], base);
    NumberBound(t[1..], base);
    if s[0] < t[0] {
      HeadDecides(s[0], u, t[0], v, p);
    } else if t[0] < s[0] {
      HeadDecides(t[0], v, s[0], u, p);
    }
  }

  /** String order of two ids is the numeric order of the 128-bit values, and equal ids have equal values. */
  lemma EncodeKeepsOrder(b: seq<bv8>, b': seq<bv8>)
    requires |b| == |b'| == 16
    ensures StringBefore(Encode(b), Encode(b')) <==> Number(Ints(b), 256) < Number(Ints(b'), 256)
    ensures Encode(b) == Encode(b') <==> b == b'
  {
    SpellOrder(AllGroups(b), AllGroups(b'));
    EncodeIsBase32(b);
    EncodeIsBase32(b');
    if Encode(b) == Encode(b') {
      BytesBelow(b);
      BytesBelow(b');
      SameDigits(Ints(b), Ints(b'));
      SameBytes(b, b');
    }
  }

  lemma {:induction false} SameDigits(s: seq<nat>, t: seq<nat>)
    requires |s| == |t| && DigitsBelow(s, 256) && DigitsBelow(t, 256) && Number(s, 256) == Number(t, 256)
    ensures s == t
  {
    if s != [] {
      HeadOrder(s, t, 256);
      SameDigits(s[1..], t[1..]);
      assert s == [s[0]] + s[1..] && t == [t[0]] + t[1..];
    }
  }

  lemma SameBytes(b: seq<bv8>, b': seq<bv8>)
    requires |b| == |b'| && Ints(b) == Ints(b')
    ensures b == b'
  {
    forall k | 0 <= k < |b|
      ensures b[k] == b'[k]
    {
      assert Ints(b)[k] == Ints(b')[k];
      SameByte(b[k], b'[k]);
    }
  }

  lemma SameByte(x: bv8, y: bv8)
    requires x as int == y as int
    ensures x == y
  {}

  // --- ids and time ---

  /** The six timestamp bytes of newULIDAt. */
  function Stamp(ms: bv64): (b: seq<bv8>)
    ensures |b| == 6
  {
    [((ms >> 40) & 0xFF) as bv8, ((ms >> 32) & 0xFF) as bv8, ((ms >> 24) & 0xFF) as bv8,
     ((ms >> 16) & 0xFF) as bv8, ((ms >> 8) & 0xFF) as bv8, (ms & 0xFF) as bv8]
  }

  /** newULIDAt: a failing entropy source gives no id. */
  function NewAt(ms: bv64, entropy: Option<seq<bv8>>): Option<string>
    requires entropy.Some? ==> |entropy.value| == 10
  {
    if entropy.None? then None else Some(Encode(Stamp(ms) + entropy.value))
  }

  method NewULIDAt(ms: bv64, entropy: Option<seq<bv8>>) returns (id: Option<string>)
    requires entropy.Some? ==> |entropy.value| == 10
    ensures id == NewAt(ms, entropy)
  {
    var b := new bv8[16];
    b[0] := ((ms >> 40) & 0xFF) as bv8;
    b[1] := ((ms >> 32) & 0xFF) as bv8;
    b[2] := ((ms >> 24) & 0xFF) as bv8;
    b[3] := ((ms >> 16) & 0xFF) as bv8;
    b[4] := ((ms >> 8) & 0xFF) as bv8;
    b[5] := (ms & 0xFF) as bv8;
    assert b[..6] == Stamp(ms);
    if entropy.None? { return None; }
    for i := 0 to 10
      invariant b[..6] == Stamp(ms) && b[6..6 + i] == entropy.value[..i]
    {
      b[6 + i] := entropy.value[i];
    }
    assert b[..] == b[..6] + b[6..16];
    assert entropy.value[..10] == entropy.value;
    var s := EncodeULID(b);
    return Some(s);
  }

  /** What the 48-bit field keeps of a time. */
  function Low48(ms: bv64): nat {
    (ms & 0xFFFF_FFFF_FFFF) as nat
  }

  lemma Low48Bytes(ms: bv64)
    ensures Low48(ms) == 0x100_0000_0000 * ((ms >> 40) & 0xFF) as int + 0x1_0000_0000 * ((ms >> 32) & 0xFF) as int
      + 0x100_0000 * ((ms >> 24) & 0xFF) as int + 0x1_0000 * ((ms >> 16) & 0xFF) as int
      + 0x100 * ((ms >> 8) & 0xFF) as int + (ms & 0xFF) as int
  {
    Byte5(ms);
    Byte4(ms);
    Byte3(ms);
    Byte2(ms);
    Byte1(ms);
  }

  lemma Byte5(ms: bv64)
    ensures (ms & 0xFFFF_FFFF_FFFF) as int == ((ms >> 40) & 0xFF) as int * 0x100_0000_0000 + (ms & 0xFF_FFFF_FFFF) as int
  {}

  lemma Byte4(ms: bv64)
    ensures (ms & 0xFF_FFFF_FFFF) as int == ((ms >> 32) & 0xFF) as int * 0x1_0000_0000 + (ms & 0xFFFF_FFFF) as int
  {}

  lemma Byte3(ms: bv64)
    ensures (ms & 0xFFFF_FFFF) as int == ((ms >> 24) & 0xFF) as int * 0x100_0000 + (ms & 0xFF_FFFF) as int
  {}

  lemma Byte2(ms: bv64)
    ensures (ms & 0xFF_FFFF) as int == ((ms >> 16) & 0xFF) as int * 0x1_0000 + (ms & 0xFFFF) as int
  {}

  lemma Byte1(ms: bv64)
    ensures (ms & 0xFFFF) as int == ((ms >> 8) & 0xFF) as int * 0x100 + (ms & 0xFF) as int
  {}

  lemma Narrow(x: bv64)
    requires x < 256
    ensures x as bv8 as int == x as int
  {}

  lemma StampNumber(ms: bv64)
    ensures Number(Ints(Stamp(ms)), 256) == Low48(ms)
  {
    StampInts(ms);
    Low48Bytes(ms);
    SixDigits(Ints(Stamp(ms)), ((ms >> 40) & 0xFF) as int, ((ms >> 32) & 0xFF) as int, ((ms >> 24) & 0xFF) as int,
      ((ms >> 16) & 0xFF) as int, ((ms >> 8) & 0xFF) as int, (ms & 0xFF) as int);
  }

  lemma SixDigits(s: seq<nat>, a: nat, b: nat, c: nat, d: nat, e: nat, f: nat)
    requires s == [a, b, c, d, e, f]
    ensures Number(s, 256) == 0x100_0000_0000 * a + 0x1_0000_0000 * b + 0x100_0000 * c + 0x1_0000 * d + 0x100 * e + f
  {
    NumberFrom(s, 256, 0);
    Number5(s[1..]);
    SmallPowers256();
  }

  lemma StampInts(ms: bv64)
    ensures Ints(Stamp(ms)) == [((ms >> 40) & 0xFF) as int, ((ms >> 32) & 0xFF) as int, ((ms >> 24) & 0xFF) as int,
      ((ms >> 16) & 0xFF) as int, ((ms >> 8) & 0xFF) as int, (ms & 0xFF) as int]
  {
    Narrow((ms >> 40) & 0xFF);
    Narrow((ms >> 32) & 0xFF);
    Narrow((ms >> 24) & 0xFF);
    Narrow((ms >> 16) & 0xFF);
    Narrow((ms >> 8) & 0xFF);
    Narrow(ms & 0xFF);
  }

  /** Ids of different (48-bit) milliseconds sort by time, whatever their random parts. */
  lemma TimeOrder(ms: bv64, ms': bv64, entropy: seq<bv8>, entropy': seq<bv8>)
    requires |entropy| == |entropy'| == 10 && Low48(ms) != Low48(ms')
    ensures StringBefore(NewAt(ms, Some(entropy)).value, NewAt(ms', Some(entropy')).value) <==> Low48(ms) < Low48(ms')
  {
    EncodeKeepsOrder(Stamp(ms) + entropy, Stamp(ms') + entropy');
    IdNumber(Low48(ms), Stamp(ms), entropy) by { StampNumber(ms); }
    IdNumber(Low48(ms'), Stamp(ms'), entropy') by { StampNumber(ms'); }
    var u, v, p := Number(Ints(entropy), 256), Number(Ints(entropy'), 256), Pow(256, 10);
    if Low48(ms) < Low48(ms') {
      HeadDecides(Low48(ms), u, Low48(ms'), v, p);
    } else {
      HeadDecides(Low48(ms'), v, Low48(ms), u, p);
    }
  }

  lemma IdNumber(time: nat, stamp: seq<bv8>, entropy: seq<bv8>)
    requires |entropy| == 10 && Number(Ints(stamp), 256) == time
    ensures Number(Ints(stamp + entropy), 256) == time * Pow(256, 10) + Number(Ints(entropy), 256)
    ensures Number(Ints(entropy), 256) < Pow(256, 10)
  {
    IntsConcat(stamp, entropy);
    NumberConcat(Ints(stamp), Ints(entropy), 256);
    BytesBelow(entropy);
    NumberBound(Ints(entropy), 256);
  }

  /** Below 2^48 ms (the year 10889) the field is the time itself, so string order on ids is time order. */
  lemma TimeOrderBelowLimit(ms: bv64, ms': bv64, entropy: seq<bv8>, entropy': seq<bv8>)
    requires |entropy| == |entropy'| == 10
    requires ms < 0x1_0000_0000_0000 && ms' < 0x1_0000_0000_0000 && ms as int < ms' as int
    ensures StringBefore(NewAt(ms, Some(entropy)).value, NewAt(ms', Some(entropy')).value)
  {
    BelowLimit(ms);
    BelowLimit(ms');
    TimeOrder(ms, ms', entropy, entropy');
  }

  lemma BelowLimit(ms: bv64)
    requires ms < 0x1_0000_0000_0000
    ensures ms & 0xFFFF_FFFF_FFFF == ms
  {}

  /** At 2^48 ms the field wraps: such an id sorts before every earlier one. */
  lemma TimeWrapsAtLimit(ms: bv64, entropy: seq<bv8>, entropy': seq<bv8>)
    requires |entropy| == |entropy'| == 10 && Low48(ms) > 0
    ensures StringBefore(NewAt(0x1_0000_0000_0000, Some(entropy)).value, NewAt(ms, Some(entropy')).value)
  {
    assert Low48(0x1_0000_0000_0000) == 0;
    TimeOrder(0x1_0000_0000_0000, ms, entropy, entropy');
  }
}
