/** Exact decimal amounts: internal/ethunit/ethunit.go and units.go. */
module Amount {
  import opened Text

  // --- what a decimal numeral is ---

  /** `t` is `i`, or `i` "." `f`, after an optional "+", with at least one digit. */
  predicate Written(t: string, i: string, f: string) {
    && Digits(i) && Digits(f) && i + f != ""
    && ((t == i && f == "") || t == i + (['.'] + f) || (t == ['+'] + i && f == "") || t == ['+'] + (i + (['.'] + f)))
  }

  /** The rational a numeral stands for is Value(i + f) / 10^|f|; scaled by 10^scale it is the integer `n`. */
  predicate ScaledValue(i: string, f: string, scale: nat, n: nat) {
    Digits(i) && Digits(f) && Digits(i + f) && Value(i + f) * Pow10(scale) == n * Pow10(|f|)
  }

  // --- parseDecimalToBase ---

  /** The two digit strings of a trimmed numeral. */
  function Lex(t: string): Option<(string, string)> {
    if t == "" || t[0] == '-' then None
    else
      var s := if t[0] == '+' then t[1..] else t;
      var k := Find(s, '.');
      var i, f := s[..k], if k < |s| then s[k + 1..] else "";
      if !Digits(i) || !Digits(f) || i + f == "" then None else Some((i, f))
  }

  predicate AllZero(s: string) {
    forall k | 0 <= k < |s| :: s[k] == '0'
  }

  function Scaled(i: string, f: string, scale: nat): Option<nat>
    requires Digits(i) && Digits(f)
  {
    if |f| <= scale then
      OnlyDigits(i, f, Zeros(scale - |f|));
      Some(Value(i + (f + Zeros(scale - |f|))))
    else if AllZero(f[scale..]) then Some(Value(i + f[..scale]))
    else None
  }

  function ParseBase(decimal: string, scale: nat): Option<nat> {
    var l := Lex(TrimSpace(decimal));
    if l.None? then None else Scaled(l.value.0, l.value.1, scale)
  }

  lemma OnlyDigits(a: string, b: string, c: string)
    requires Digits(a) && Digits(b) && Digits(c)
    ensures Digits(a + (b + c))
  {}

  method IsDigits(s: string) returns (ok: bool)
    ensures ok <==> s != "" && Digits(s)
  {
    if s == "" { return false; }
    for i := 0 to |s|
      invariant Digits(s[..i])
    {
      if s[i] < '0' || s[i] > '9' { return false; }
      assert s[..i + 1] == s[..i] + [s[i]];
    }
    assert s[..|s|] == s;
    return true;
  }

  /** strings.TrimLeft(s, "0"). */
  method TrimLeftZeros(s: string) returns (r: string)
    requires Digits(s)
    ensures Digits(r) && Value(r) == Value(s) && (r == "" || r[0] != '0')
  {
    var i := 0;
    while i < |s| && s[i] == '0'
      invariant 0 <= i <= |s| && forall k | 0 <= k < i :: s[k] == '0'
    {
      i := i + 1;
    }
    r := s[i..];
    assert s == Zeros(i) + r;
    ValueConcat(Zeros(i), r);
    ValueZeros(i);
  }

  method ParseDecimalToBase(decimal: string, scale: nat) returns (out: Option<nat>)
    ensures out == ParseBase(decimal, scale)
  {
    var parts := LexAmount(TrimSpace(decimal));
    if parts.None? { return None; }
    var (intPart, fracPart) := parts.value;
    if |fracPart| > scale {
      if exists k | scale <= k < |fracPart| :: fracPart[k] != '0' {
        var k :| scale <= k < |fracPart| && fracPart[k] != '0';
        assert fracPart[scale..][k - scale] == fracPart[k];
        return None;
      }
      fracPart := fracPart[..scale];
      assert fracPart + Zeros(0) == fracPart;
    }
    out := Combine(intPart, fracPart, scale);
  }

  /** The sign, the split at the dot and the digit checks. */
  method LexAmount(t: string) returns (out: Option<(string, string)>)
    ensures out == Lex(t)
  {
    if t == "" || t[0] == '-' { return None; }
    var s := if t[0] == '+' then t[1..] else t;
    var dot := Find(s, '.');
    var intPart, fracPart, hasDot := s[..dot], "", false;
    if dot < |s| {
      hasDot, fracPart := true, s[dot + 1..];
      var second := Find(fracPart, '.');
      if second < |fracPart| {
        assert !Digits(fracPart);
        return None;
      }
    }
    if intPart == "" && fracPart == "" { return None; }
    var intOk := IsDigits(if intPart == "" then "0" else intPart);
    var fracOk := IsDigits(fracPart);
    if !intOk || (hasDot && fracPart != "" && !fracOk) { return None; }
    return Some((intPart, fracPart));
  }

  /** Right-padding, concatenation and the reading of the combined digits. */
  method Combine(intPart0: string, fracPart: string, scale: nat) returns (out: Option<nat>)
    requires Digits(intPart0) && Digits(fracPart) && |fracPart| <= scale
    ensures out == Scaled(intPart0, fracPart, scale)
  {
    var intPart := if intPart0 == "" then "0" else intPart0;
    var padded := fracPart;
    while |padded| < scale
      invariant |fracPart| <= |padded| <= scale && padded == fracPart + Zeros(|padded| - |fracPart|)
    {
      padded := padded + ['0'];
    }
    LeadingZero(intPart0, intPart, padded);
    var combined := TrimLeftZeros(intPart + padded);
    if combined == "" {
      combined := "0";
    }
    return Some(Value(combined));
  }

  /** An empty integer part reads as "0". */
  lemma LeadingZero(i0: string, i: string, rest: string)
    requires Digits(i0) && Digits(rest) && i == if i0 == "" then ['0'] else i0
    ensures Digits(i0 + rest) && Digits(i + rest) && Value(i + rest) == Value(i0 + rest)
  {
    if i0 == "" {
      assert i0 + rest == rest;
      ValueConcat(i, rest);
      assert i[..0] == "";
    }
  }

  // --- when it succeeds, and what it returns ---

  /** Lexing accepts exactly the numerals, and finds their one reading. */
  lemma LexIff(t: string, i: string, f: string)
    ensures Lex(t) == Some((i, f)) <==> Written(t, i, f)
  {
    if Lex(t) == Some((i, f)) {
      LexIsWritten(t);
    }
    if Written(t, i, f) {
      var s := if t[0] == '+' then t[1..] else t;
      WrittenFind(s, i, f);
    }
  }

  lemma LexIsWritten(t: string)
    requires Lex(t).Some?
    ensures Written(t, Lex(t).value.0, Lex(t).value.1)
  {
    var s := if t[0] == '+' then t[1..] else t;
    var (i, f) := Lex(t).value;
    UnsignedSplit(s, i, f, Find(s, '.'));
    Signed(t, s, i, f);
  }

  lemma Signed(t: string, s: string, i: string, f: string)
    requires t != "" && s == (if t[0] == '+' then t[1..] else t) && Digits(i) && Digits(f) && i + f != ""
    requires (s == i && f == "") || s == i + (['.'] + f)
    ensures Written(t, i, f)
  {
    if t[0] == '+' {
      assert t == ['+'] + s;
    }
  }

  lemma UnsignedSplit(s: string, i: string, f: string, k: nat)
    requires k <= |s| && (k < |s| ==> s[k] == '.') && i == s[..k] && f == if k < |s| then s[k + 1..] else ""
    ensures (s == i && f == "") || s == i + (['.'] + f)
  {
    if k < |s| {
      assert s == s[..k] + (['.'] + s[k + 1..]);
    } else {
      assert s[..k] == s;
    }
  }

  lemma WrittenFind(s: string, i: string, f: string)
    requires Digits(i) && Digits(f) && ((s == i && f == "") || s == i + (['.'] + f))
    ensures var k := Find(s, '.'); s[..k] == i && f == if k < |s| then s[k + 1..] else ""
  {
    var k := Find(s, '.');
    assert forall j | 0 <= j < |i| :: s[j] == i[j] != '.';
    if s != i {
      assert s[|i|] == '.';
    }
  }

  lemma CancelRight(a: int, b: int, p: int)
    requires p > 0
    ensures a * p == b * p <==> a == b
  {}

  lemma {:induction false} ZeroValue(s: string)
    requires Digits(s)
    ensures AllZero(s) <==> Value(s) == 0
  {
    if s != "" {
      var p := s[..|s| - 1];
      assert s == p + [s[|s| - 1]];
      ZeroValue(p);
    }
  }

  lemma ScaledIff(i: string, f: string, scale: nat, n: nat)
    requires Digits(i) && Digits(f)
    ensures Scaled(i, f, scale) == Some(n) <==> ScaledValue(i, f, scale, n)
  {
    if |f| <= scale {
      PaddedIff(i, f, scale - |f|, n);
    } else {
      CutIff(i, f[..scale], f[scale..], n);
      assert f[..scale] + f[scale..] == f;
    }
  }

  /** Padding the fraction with `d` zeros. */
  lemma PaddedIff(i: string, f: string, d: nat, n: nat)
    requires Digits(i) && Digits(f)
    ensures Digits(i + (f + Zeros(d)))
    ensures Value(i + (f + Zeros(d))) == n <==> ScaledValue(i, f, |f| + d, n)
  {
    var v := Value(i + f);
    assert i + (f + Zeros(d)) == i + f + Zeros(d);
    ValueConcat(i + f, Zeros(d));
    ValueZeros(d);
    Pow10Add(d, |f|);
    MulSwap(v, Pow10(d), Pow10(|f|));
    CancelRight(v * Pow10(d), n, Pow10(|f|));
  }

  /** Cutting the excess digits `e` off the fraction. */
  lemma CutIff(i: string, f: string, e: string, n: nat)
    requires Digits(i) && Digits(f) && Digits(e)
    ensures Digits(i + f) && (AllZero(e) && Value(i + f) == n <==> ScaledValue(i, f + e, |f|, n))
  {
    CutValue(i, f, e);
    ValueBound(e);
    ZeroValue(e);
    CutArithmetic(Value(i + f), Value(e), Pow10(|e|), Pow10(|f|), n);
  }

  lemma CutValue(i: string, f: string, e: string)
    requires Digits(i) && Digits(f) && Digits(e)
    ensures Digits(i + f) && Digits(f + e) && Digits(i + (f + e))
    ensures Value(i + (f + e)) == Value(i + f) * Pow10(|e|) + Value(e)
    ensures Pow10(|f + e|) == Pow10(|e|) * Pow10(|f|)
  {
    assert i + (f + e) == i + f + e;
    ValueConcat(i + f, e);
    Pow10Add(|e|, |f|);
  }

  lemma CutArithmetic(v: nat, e: nat, p: nat, s: nat, n: nat)
    requires e < p && s > 0
    ensures e == 0 && v == n <==> (v * p + e) * s == n * (p * s)
  {
    MulSwap(n, p, s);
    CancelRight(v * p + e, n * p, s);
    DigitsOfQuotient(v, e, n, p);
  }

  lemma MulSwap(a: int, b: int, c: int)
    ensures a * (b * c) == (a * b) * c
  {}

  lemma MulAtLeast(a: int, p: int)
    requires a >= 1 && p >= 0
    ensures a * p >= p
  {}

  lemma Distribute(a: int, b: int, p: int)
    ensures (a - b) * p == a * p - b * p
  {}

  lemma DigitsOfQuotient(q: nat, r: nat, n: nat, p: nat)
    requires r < p
    ensures q * p + r == n * p <==> r == 0 && q == n
  {
    if n > q {
      MulAtLeast(n - q, p);
      Distribute(n, q, p);
    } else if n < q {
      MulAtLeast(q - n, p);
      Distribute(q, n, p);
    }
  }

  /** parseDecimalToBase succeeds exactly on the numerals whose value times 10^scale is an integer, and returns
      that integer. */
  lemma ParseIff(decimal: string, scale: nat, n: nat)
    ensures ParseBase(decimal, scale) == Some(n) <==>
      exists i, f :: Written(TrimSpace(decimal), i, f) && ScaledValue(i, f, scale, n)
  {
    var t := TrimSpace(decimal);
    if Lex(t).Some? {
      LexIff(t, Lex(t).value.0, Lex(t).value.1);
      ScaledIff(Lex(t).value.0, Lex(t).value.1, scale, n);
    }
    forall i, f | Written(t, i, f)
      ensures Lex(t) == Some((i, f))
    {
      LexIff(t, i, f);
    }
  }

  // --- formatBase ---

  /** strings.TrimRight(s, "0"). */
  function TrimRightZeros(s: string): (r: string)
    ensures |r| <= |s| && s == r + Zeros(|s| - |r|)
    ensures r == "" || r[|r| - 1] != '0'
  {
    if s != "" && s[|s| - 1] == '0' then
      var r := TrimRightZeros(s[..|s| - 1]);
      assert s == s[..|s| - 1] + "0";
      assert Zeros(|s| - 1 - |r|) + "0" == Zeros(|s| - |r|);
      r
    else
      assert s == s + Zeros(0);
      s
  }

  function LeftPadded(s: string, scale: nat): string {
    if |s| < scale then Zeros(scale - |s|) + s else s
  }

  /** big.Int.QuoRem of non-negative numbers. */
  function QuoRem(n: nat, p: nat): (qr: (nat, nat))
    requires p > 0
    ensures qr.1 < p
  {
    if n < p then (0, n) else var (q, r) := QuoRem(n - p, p); (q + 1, r)
  }

  lemma {:induction false} QuoRemIsDivision(n: nat, p: nat)
    requires p > 0
    ensures var (q, r) := QuoRem(n, p); n == q * p + r
  {
    if n >= p {
      QuoRemIsDivision(n - p, p);
      Distribute(QuoRem(n, p).0, 1, p);
    }
  }

  /** The integer digits and the fraction digits formatBase writes. */
  function Shown(n: nat, scale: nat): (string, string) {
    var (q, r) := QuoRem(n, Pow10(scale));
    (Itoa(q), if r == 0 then "" else TrimRightZeros(LeftPadded(Itoa(r), scale)))
  }

  function FormatNat(n: nat, scale: nat): string {
    var (i, f) := Shown(n, scale);
    if f == "" then i else i + (['.'] + f)
  }

  function Format(n: int, scale: nat): string {
    if n < 0 then ['-'] + FormatNat(-n, scale) else FormatNat(n, scale)
  }

  method FormatBase(n: int, scale: nat) returns (out: string)
    ensures out == Format(n, scale)
  {
    var neg := n < 0;
    var abs: nat := if neg then -n else n;
    out := FormatAbs(abs, scale);
    if neg {
      out := ['-'] + out;
    }
  }

  method FormatAbs(abs: nat, scale: nat) returns (out: string)
    ensures out == FormatNat(abs, scale)
  {
    if scale == 0 {
      WholeUnits(abs);
      return Itoa(abs);
    }
    var (q, r) := QuoRem(abs, Pow10(scale));
    var intStr := Itoa(q);
    if r == 0 { return intStr; }
    var fracStr := Fraction(r, scale);
    return intStr + (['.'] + fracStr);
  }

  lemma {:induction false} WholeUnits(n: nat)
    ensures QuoRem(n, 1) == (n, 0)
  {
    if n >= 1 {
      WholeUnits(n - 1);
    }
  }

  /** The left-padding and the trimming of the remainder's digits. */
  method Fraction(r: nat, scale: nat) returns (fracStr: string)
    requires 0 < r < Pow10(scale)
    ensures fracStr == TrimRightZeros(LeftPadded(Itoa(r), scale)) && fracStr != ""
  {
    fracStr := PadLeft(Itoa(r), scale);
    TrimmedNonEmpty(r, scale);
    fracStr := CutZeros(fracStr);
  }

  method PadLeft(s: string, scale: nat) returns (out: string)
    ensures out == LeftPadded(s, scale)
  {
    out := s;
    while |out| < scale
      invariant |out| >= |s| && (|out| <= scale || out == s) && out == Zeros(|out| - |s|) + s
    {
      out := ['0'] + out;
    }
  }

  method CutZeros(s: string) returns (out: string)
    ensures out == TrimRightZeros(s)
  {
    var k := |s|;
    assert s[..k] == s;
    while k > 0 && s[k - 1] == '0'
      invariant 0 <= k <= |s| && TrimRightZeros(s[..k]) == TrimRightZeros(s)
    {
      assert s[..k][..k - 1] == s[..k - 1];
      k := k - 1;
    }
    out := s[..k];
  }

  /** The remainder has at most `scale` digits, so padding makes it exactly `scale` long. */
  lemma PaddedRemainder(r: nat, scale: nat)
    requires 0 < r < Pow10(scale)
    ensures var p := LeftPadded(Itoa(r), scale); |p| == scale && Digits(p) && Value(p) == r
  {
    var s := Itoa(r);
    NonZeroItoa(r);
    FewDigits(s, scale);
    if |s| < scale {
      PaddedValue(scale - |s|, s);
    }
  }

  lemma PaddedValue(k: nat, s: string)
    requires Digits(s)
    ensures Digits(Zeros(k) + s) && Value(Zeros(k) + s) == Value(s)
  {
    ValueConcat(Zeros(k), s);
    ValueZeros(k);
    assert 0 * Pow10(|s|) == 0;
  }

  lemma TrimmedNonEmpty(r: nat, scale: nat)
    requires 0 < r < Pow10(scale)
    ensures TrimRightZeros(LeftPadded(Itoa(r), scale)) != ""
  {
    var p := LeftPadded(Itoa(r), scale);
    PaddedRemainder(r, scale);
    if TrimRightZeros(p) == "" {
      assert p == "" + Zeros(|p|) == Zeros(|p|);
      ValueZeros(|p|);
    }
  }

  lemma {:induction false} FewDigits(s: string, scale: nat)
    requires Digits(s) && s != "" && s[0] != '0' && Value(s) < Pow10(scale)
    ensures |s| <= scale
  {
    if |s| > scale {
      var tail := s[1..];
      assert s == [s[0]] + tail;
      NonZero([s[0]]);
      ValueConcat([s[0]], tail);
      MulAtLeast(Value([s[0]]), Pow10(|tail|));
      Pow10Add(|tail| - scale, scale);
      MulAtLeast(Pow10(|tail| - scale), Pow10(scale));
    }
  }

  lemma NonZeroItoa(r: nat)
    requires r > 0
    ensures Itoa(r)[0] != '0'
  {
    if |Itoa(r)| == 1 {
      assert Itoa(r)[..0] == "";
    }
  }

  predicate NoTrailingZero(f: string) {
    f == "" || f[|f| - 1] != '0'
  }

  /** What formatBase writes is a numeral in lowest form, and its value is exactly n / 10^scale. */
  lemma FormatIsExact(n: nat, scale: nat)
    ensures var (i, f) := Shown(n, scale);
      && Written(Format(n, scale), i, f)
      && ScaledValue(i, f, scale, n)
      && NoTrailingZero(f) && (|i| > 1 ==> i[0] != '0')
  {
    var (q, r) := QuoRem(n, Pow10(scale));
    QuoRemIsDivision(n, Pow10(scale));
    var i := Itoa(q);
    if r == 0 {
      assert i + "" == i;
      assert Pow10(0) == 1;
    } else {
      var p := LeftPadded(Itoa(r), scale);
      PaddedRemainder(r, scale);
      TrimmedNonEmpty(r, scale);
      ValueConcat(i, p);
      TrimmedValue(i, p, n);
    }
  }

  /** Dropping the trailing zeros of the fraction `p` leaves the same rational. */
  lemma TrimmedValue(i: string, p: string, n: nat)
    requires Digits(i) && Digits(p) && Digits(i + p) && Value(i + p) == n
    ensures var f := TrimRightZeros(p); Digits(f) && ScaledValue(i, f, |p|, n)
  {
    var f := TrimRightZeros(p);
    assert forall k | 0 <= k < |f| :: f[k] == p[k];
    PaddedIff(i, f, |p| - |f|, n);
  }

  lemma DigitsAreClean(t: string, i: string, f: string)
    requires Written(t, i, f) && (f == "" ==> t == i) && (f != "" ==> t == i + (['.'] + f)) && i != ""
    ensures TrimSpace(t) == t
  {
    TrimClean(t);
  }

  lemma NegativeRefused(t: string, i: string, f: string)
    requires Digits(i) && Digits(f) && i != "" && t == if f == "" then i else i + (['.'] + f)
    ensures Lex(TrimSpace(['-'] + t)) == None
  {
    TrimClean(['-'] + t);
  }

  /** Parsing inverts formatting at every scale; a negative amount is never read back. */
  lemma ParseInvertsFormat(n: int, scale: nat)
    ensures ParseBase(Format(n, scale), scale) == if n >= 0 then Some(n) else None
  {
    if n >= 0 {
      FormatIsExact(n, scale);
      var (i, f) := Shown(n, scale);
      DigitsAreClean(Format(n, scale), i, f);
      ParseIff(Format(n, scale), scale, n);
    } else {
      NegativeRefused(FormatNat(-n, scale), Shown(-n, scale).0, Shown(-n, scale).1) by { FormatIsExact(-n, scale); }
    }
  }

  /** Formatting what was parsed gives the same rational, in lowest form. */
  lemma FormatOfParse(decimal: string, i: string, f: string, scale: nat, n: nat)
    requires Written(TrimSpace(decimal), i, f) && ParseBase(decimal, scale) == Some(n)
    ensures var (i', f') := Shown(n, scale);
      && Written(Format(n, scale), i', f')
      && Digits(i' + f') && Digits(i + f)
      && Value(i' + f') * Pow10(|f|) == Value(i + f) * Pow10(|f'|)
      && NoTrailingZero(f')
  {
    LexIff(TrimSpace(decimal), i, f);
    ScaledIff(i, f, scale, n);
    FormatIsExact(n, scale);
    var (i', f') := Shown(n, scale);
    SameNumber(i', f', i, f, scale, n);
  }

  /** Two numerals that scale to the same integer stand for the same rational. */
  lemma SameNumber(i': string, f': string, i: string, f: string, scale: nat, n: nat)
    requires ScaledValue(i', f', scale, n) && ScaledValue(i, f, scale, n)
    ensures Value(i' + f') * Pow10(|f|) == Value(i + f) * Pow10(|f'|)
  {
    SameRational(Value(i' + f'), Value(i + f), Pow10(scale), Pow10(|f|), Pow10(|f'|), n);
  }

  lemma SameRational(a: int, b: int, p: int, x: int, y: int, n: int)
    requires p > 0 && a * p == n * y && b * p == n * x
    ensures a * x == b * y
  {
    assert (a * x) * p == (a * p) * x == n * y * x;
    assert (b * y) * p == (b * p) * y == n * x * y;
    CancelRight(a * x, b * y, p);
  }

  // --- units ---

  datatype Unit = Wei | Gwei | Eth

  function Decimals(u: Unit): nat {
    match u case Wei => 0 case Gwei => 9 case Eth => 18
  }

  function UnitName(u: Unit): string {
    match u case Wei => "wei" case Gwei => "gwei" case Eth => "eth"
  }

  function ParseUnit(s: string): Option<Unit> {
    var t := ToLower(TrimSpace(s));
    if t == "wei" then Some(Wei)
    else if t == "gwei" then Some(Gwei)
    else if t == "eth" || t == "ether" then Some(Eth)
    else None
  }

  /** The chars SplitAmountUnit takes into the number; a sign only in front. */
  predicate Numeric(s: string, i: nat)
    requires i < |s|
  {
    ('0' <= s[i] <= '9') || s[i] == '.' || ((s[i] == '+' || s[i] == '-') && i == 0)
  }

  /** Where the number that reaches at least to `i` ends. */
  function NumberEnd(s: string, i: nat): (k: nat)
    requires i <= |s|
    ensures i <= k <= |s|
    ensures (forall j | i <= j < k :: Numeric(s, j)) && (k < |s| ==> !Numeric(s, k))
    decreases |s| - i
  {
    if i < |s| && Numeric(s, i) then NumberEnd(s, i + 1) else i
  }

  function ValueAndUnit(s0: string): (string, string) {
    var s := TrimSpace(s0);
    var k := NumberEnd(s, 0);
    (TrimSpace(s[..k]), ToLower(TrimSpace(s[k..])))
  }

  method SplitAmountUnit(s0: string) returns (value: string, symbol: string)
    ensures (value, symbol) == ValueAndUnit(s0)
  {
    var s := TrimSpace(s0);
    var i := 0;
    while i < |s| && Numeric(s, i)
      invariant 0 <= i <= |s| && NumberEnd(s, i) == NumberEnd(s, 0)
    {
      i := i + 1;
    }
    value := TrimSpace(s[..i]);
    symbol := ToLower(TrimSpace(s[i..]));
  }

  predicate Lowercase(t: string) {
    forall k | 0 <= k < |t| :: 'a' <= t[k] <= 'z'
  }

  lemma LowercaseKept(t: string)
    requires Lowercase(t) && t != ""
    ensures TrimSpace(t) == t && ToLower(TrimSpace(t)) == t
  {
    TrimClean(t);
    assert ToLower(t) == t;
  }

  lemma NameIsLetters(u: Unit)
    ensures UnitName(u) != "" && Lowercase(UnitName(u))
  {}

  /** A text of number chars, then a lowercase one. */
  lemma EndsBetween(t: string, name: string)
    requires name != "" && Lowercase(name) && forall j | 0 <= j < |t| :: ('0' <= t[j] <= '9') || t[j] == '.'
    ensures NumberEnd(t + name, 0) == |t|
  {
    var s := t + name;
    var k := NumberEnd(s, 0);
    assert forall j | 0 <= j < |t| :: s[j] == t[j] && Numeric(s, j);
    assert s[|t|] == name[0];
    assert !Numeric(s, |t|);
  }

  lemma SplitsBetween(s: string, t: string, name: string)
    requires s == t + name && TrimSpace(s) == s && NumberEnd(s, 0) == |t|
    requires TrimSpace(t) == t && ToLower(TrimSpace(name)) == name
    ensures ValueAndUnit(s) == (t, name)
  {
    assert s[..|t|] == t && s[|t|..] == name;
  }

  predicate NumeralShape(t: string) {
    && (forall j | 0 <= j < |t| :: ('0' <= t[j] <= '9') || t[j] == '.')
    && t != "" && t[0] != '.' && t[|t| - 1] != '.'
  }

  lemma NumeralThenName(t: string, name: string)
    requires NumeralShape(t) && name != "" && Lowercase(name)
    ensures ValueAndUnit(t + name) == (t, name)
  {
    LowercaseKept(name);
    EndsBetween(t, name);
    TrimClean(t);
    TrimClean(t + name);
    SplitsBetween(t + name, t, name);
  }

  /** Wei in one unit: a gwei is 10^9 wei, an eth 10^9 gwei. */
  function WeiPer(u: Unit): nat {
    match u case Wei => 1 case Gwei => 1_000_000_000 case Eth => 1_000_000_000 * 1_000_000_000
  }

  lemma UnitScale(u: Unit)
    ensures Pow10(Decimals(u)) == WeiPer(u)
  {
    assert Pow10(9) == 1_000_000_000 by {
      assert Pow10(3) == 1000;
      Pow10Add(3, 3);
      Pow10Add(6, 3);
    }
    Pow10Add(9, 9);
  }

  /** A whole number of a unit is that many times its wei. */
  lemma WholeAmount(k: nat, u: Unit)
    ensures ParseBase(Itoa(k), Decimals(u)) == Some(k * WeiPer(u))
  {
    var t := Itoa(k);
    assert t + "" == t;
    UnitScale(u);
    ParseIff(t, Decimals(u), k * WeiPer(u));
    DigitsTrim(t);
    assert Written(t, t, "") && ScaledValue(t, "", Decimals(u), k * WeiPer(u));
  }

  lemma DigitsTrim(t: string)
    requires t != "" && Digits(t)
    ensures TrimSpace(t) == t
  {
    TrimClean(t);
  }

  /** The names of the units, in any case and with white space around them. */
  lemma UnitNameIff(s: string, u: Unit)
    ensures ParseUnit(s) == Some(u) <==>
      ToLower(TrimSpace(s)) == UnitName(u) || (u.Eth? && ToLower(TrimSpace(s)) == "ether")
  {}

  predicate Letters(t: string) {
    forall k | 0 <= k < |t| :: ('a' <= t[k] <= 'z') || ('A' <= t[k] <= 'Z')
  }

  /** A sign or none, then digits and dots, a digit at either end. */
  predicate SignedShape(value: string) {
    && value != "" && '0' <= value[|value| - 1] <= '9'
    && (('0' <= value[0] <= '9') || ((value[0] == '+' || value[0] == '-') && |value| > 1 && '0' <= value[1] <= '9'))
    && forall j | 1 <= j < |value| :: ('0' <= value[j] <= '9') || value[j] == '.'
  }

  /** A number, white space or none, and a word: the number comes back as it is and the word in lower case, whatever
      white space is around them. */
  lemma NumberAndWord(lead: string, value: string, gap: string, word: string, trail: string)
    requires Only(lead, ASCII_SPACE) && Only(gap, ASCII_SPACE) && Only(trail, ASCII_SPACE)
    requires SignedShape(value) && word != "" && Letters(word)
    ensures ValueAndUnit(lead + ((value + (gap + word)) + trail)) == (value, ToLower(word))
  {
    BothEnds(value, gap, word);
    TrimPads(lead, value + (gap + word), trail);
    AfterGap(gap, word);
    ValueEnds(value, gap + word);
    TrimClean(value);
    Halves(value + (gap + word), value, gap + word);
  }

  lemma BothEnds(value: string, gap: string, word: string)
    requires SignedShape(value) && word != "" && Letters(word)
    ensures Clean(value) && Clean(word) && Clean(value + (gap + word))
  {
    var s := value + (gap + word);
    assert s[|s| - 1] == word[|word| - 1] && s[0] == value[0];
  }

  lemma AfterGap(gap: string, word: string)
    requires Only(gap, ASCII_SPACE) && Clean(word) && Letters(word)
    ensures TrimSpace(gap + word) == word
    ensures var c := (gap + word)[0]; !('0' <= c <= '9') && c != '.' && c != '+' && c != '-'
  {
    TrimPads(gap, word, "");
    assert gap + (word + "") == gap + word;
    assert (gap + word)[0] == if gap == "" then word[0] else gap[0];
  }

  lemma Halves(s: string, a: string, b: string)
    requires s == a + b
    ensures s[..|a|] == a && s[|a|..] == b
  {}

  lemma ValueEnds(value: string, rest: string)
    requires value != "" && rest != "" && !(('0' <= rest[0] <= '9') || rest[0] == '.' || rest[0] == '+' || rest[0] == '-')
    requires ('0' <= value[0] <= '9') || value[0] == '.' || value[0] == '+' || value[0] == '-'
    requires forall j | 1 <= j < |value| :: ('0' <= value[j] <= '9') || value[j] == '.'
    ensures NumberEnd(value + rest, 0) == |value|
  {
    var s := value + rest;
    var k := NumberEnd(s, 0);
    assert forall j | 0 <= j < |value| :: s[j] == value[j] && Numeric(s, j);
    assert s[|value|] == rest[0] && !Numeric(s, |value|);
  }

  /** Formatting an amount, writing the unit behind it and splitting again recovers the unit and the amount. */
  lemma UnitRoundTrip(n: nat, u: Unit)
    ensures var (value, symbol) := ValueAndUnit(Format(n, Decimals(u)) + UnitName(u));
      ParseUnit(symbol) == Some(u) && ParseBase(value, Decimals(u)) == Some(n)
  {
    var t := Format(n, Decimals(u));
    FormatShape(n, Decimals(u));
    NameIsLetters(u);
    NumeralThenName(t, UnitName(u));
    NameParses(u, UnitName(u));
    ParseInvertsFormat(n, Decimals(u));
  }

  lemma NameParses(u: Unit, name: string)
    requires name == UnitName(u)
    ensures ParseUnit(name) == Some(u)
  {
    NameIsLetters(u);
    LowercaseKept(name);
  }

  lemma FormatShape(n: nat, scale: nat)
    ensures NumeralShape(Format(n, scale))
  {
    var (i, f) := Shown(n, scale);
    FormatIsExact(n, scale);
    ShapeOf(Format(n, scale), i, f);
  }

  lemma ShapeOf(t: string, i: string, f: string)
    requires Digits(i) && Digits(f) && i != "" && t == if f == "" then i else i + (['.'] + f)
    ensures NumeralShape(t)
  {}
}
