/** Byte strings and the few string helpers the modelled packages share.

A Go string or byte slice is a `string` here, one `char` per byte; a `char` above '\U{FF}'
never arises from Go, and no result below depends on excluding one. */
module Text {

  datatype Option<+T> = None | Some(value: T)

  /** All digits of `s` are decimal digits (the empty string included). */
  predicate Digits(s: string) {
    forall i | 0 <= i < |s| :: '0' <= s[i] <= '9'
  }

  /** Every char of `s` is one of `set`. */
  predicate Only(s: string, allowed: set<char>) {
    forall i | 0 <= i < |s| :: s[i] in allowed
  }

  /** Index of the first `c` in `s`, or |s| when there is none. */
  function Find(s: string, c: char): (i: nat)
    ensures i <= |s|
    ensures i < |s| ==> s[i] == c
    ensures forall j | 0 <= j < i :: s[j] != c
  {
    if s == "" || s[0] == c then 0 else 1 + Find(s[1..], c)
  }

  lemma Associates<T>(a: seq<T>, b: seq<T>, c: seq<T>)
    ensures a + b + c == a + (b + c)
  {}

  // --- decimal numerals ---

  function DigitValue(c: char): (d: nat)
    requires '0' <= c <= '9'
    ensures d < 10
  {
    c as int - '0' as int
  }

  function DigitChar(d: nat): (c: char)
    requires d < 10
    ensures '0' <= c <= '9' && DigitValue(c) == d
  {
    ('0' as int + d) as char
  }

  /** The number a string of decimal digits denotes ("" denotes 0). */
  function Value(s: string): nat
    requires Digits(s)
  {
    if s == "" then 0 else Value(s[..|s| - 1]) * 10 + DigitValue(s[|s| - 1])
  }

  /** Decimal rendering without leading zeros: uitoa, and the String of a non-negative big.Int. */
  function Itoa(n: nat): (s: string)
    ensures s != "" && Digits(s)
    ensures Value(s) == n
    ensures |s| > 1 ==> s[0] != '0'
  {
    if n < 10 then [DigitChar(n)]
    else
      var s := Itoa(n / 10) + [DigitChar(n % 10)];
      assert s[..|s| - 1] == Itoa(n / 10);
      s
  }

  function Pow10(n: nat): (p: nat)
    ensures p > 0
  {
    if n == 0 then 1 else 10 * Pow10(n - 1)
  }

  function Zeros(n: nat): (s: string)
    ensures |s| == n && Digits(s) && forall i | 0 <= i < n :: s[i] == '0'
  {
    seq(n, i => '0')
  }

  lemma {:induction false} ValueConcat(s: string, t: string)
    requires Digits(s) && Digits(t)
    ensures Digits(s + t)
    ensures Value(s + t) == Value(s) * Pow10(|t|) + Value(t)
  {
    if t == "" {
      assert s + t == s;
    } else {
      var t' := t[..|t| - 1];
      assert (s + t)[..|s + t| - 1] == s + t';
      ValueConcat(s, t');
      Shift(Value(s), Pow10(|t'|), Value(t'));
    }
  }

  lemma Shift(a: int, p: int, b: int)
    ensures (a * p + b) * 10 == a * (10 * p) + b * 10
  {}

  lemma {:induction false} ValueZeros(n: nat)
    ensures Value(Zeros(n)) == 0
  {
    if n > 0 {
      assert Zeros(n)[..n - 1] == Zeros(n - 1);
      ValueZeros(n - 1);
    }
  }

  lemma {:induction false} ValueBound(s: string)
    requires Digits(s)
    ensures Value(s) < Pow10(|s|)
  {
    if s != "" {
      ValueBound(s[..|s| - 1]);
    }
  }

  lemma {:induction false} Pow10Add(a: nat, b: nat)
    ensures Pow10(a + b) == Pow10(a) * Pow10(b)
  {
    if a > 0 {
      Pow10Add(a - 1, b);
      assert 10 * (Pow10(a - 1) * Pow10(b)) == (10 * Pow10(a - 1)) * Pow10(b);
    }
  }

  /** Canonical numerals are determined by their value, so Itoa inverts Value on them. */
  lemma {:induction false} CanonicalNumeral(s: string)
    requires s != "" && Digits(s) && (|s| > 1 ==> s[0] != '0')
    ensures Itoa(Value(s)) == s
  {
    var p := s[..|s| - 1];
    assert s == p + [s[|s| - 1]];
    if |s| > 1 {
      CanonicalNumeral(p);
      NonZero(p);
    }
  }

  lemma {:induction false} NonZero(s: string)
    requires s != "" && Digits(s) && s[0] != '0'
    ensures Value(s) > 0
  {
    if |s| > 1 {
      NonZero(s[..|s| - 1]);
    }
  }

  // --- strings.ToLower, on the ASCII letters ---

  function LowerChar(c: char): char {
    if 'A' <= c <= 'Z' then (c as int + 32) as char else c
  }

  function ToLower(s: string): (r: string)
    ensures |r| == |s| && forall k | 0 <= k < |s| :: r[k] == LowerChar(s[k])
  {
    seq(|s|, k requires 0 <= k < |s| => LowerChar(s[k]))
  }

  // --- strings.TrimSpace / bytes.TrimSpace ---

  const ASCII_SPACE: set<char> := {'\t', '\n', '\U{B}', '\U{C}', '\r', ' '}

  /** The two- and three-byte white space runes in UTF-8: U+0085, U+00A0, then U+1680,
      U+2000 to U+200A, U+2028, U+2029, U+202F, U+205F and U+3000. */
  predicate WideSpace(r: string)
  {
    if |r| == 2 then
      r[0] == '\U{C2}' && (r[1] == '\U{85}' || r[1] == '\U{A0}')
    else
      |r| == 3
      && ((r[0] == '\U{E1}' && r[1] == '\U{9A}' && r[2] == '\U{80}')
          || (r[0] == '\U{E2}' && r[1] == '\U{80}'
              && ('\U{80}' <= r[2] <= '\U{8A}' || r[2] == '\U{A8}' || r[2] == '\U{A9}' || r[2] == '\U{AF}'))
          || (r[0] == '\U{E2}' && r[1] == '\U{81}' && r[2] == '\U{9F}')
          || (r[0] == '\U{E3}' && r[1] == '\U{80}' && r[2] == '\U{80}'))
  }

  /** Length of the white space rune at the front of `s`, 0 when there is none. */
  function SpaceAtFront(s: string): (n: nat)
    ensures n <= |s|
  {
    if |s| >= 1 && s[0] in ASCII_SPACE then 1
    else if |s| >= 2 && WideSpace(s[..2]) then 2
    else if |s| >= 3 && WideSpace(s[..3]) then 3
    else 0
  }

  function SpaceAtBack(s: string): (n: nat)
    ensures n <= |s|
  {
    if |s| >= 1 && s[|s| - 1] in ASCII_SPACE then 1
    else if |s| >= 2 && WideSpace(s[|s| - 2..]) then 2
    else if |s| >= 3 && WideSpace(s[|s| - 3..]) then 3
    else 0
  }

  function TrimLeft(s: string): (t: string)
    ensures |t| <= |s|
    decreases |s|
  {
    if SpaceAtFront(s) == 0 then s else TrimLeft(s[SpaceAtFront(s)..])
  }

  function TrimRight(s: string): (t: string)
    ensures |t| <= |s|
    ensures t <= s
    decreases |s|
  {
    if SpaceAtBack(s) == 0 then s else TrimRight(s[..|s| - SpaceAtBack(s)])
  }

  function TrimSpace(s: string): (t: string)
    ensures |t| <= |s|
  {
    TrimRight(TrimLeft(s))
  }

  /** `c` is an ASCII byte that is not white space. */
  predicate Solid(c: char) {
    c < '\U{80}' && c !in ASCII_SPACE
  }

  /** Begins and ends with a non-space ASCII byte: TrimSpace leaves such a string alone. */
  predicate Clean(s: string) {
    s != "" && Solid(s[0]) && Solid(s[|s| - 1])
  }

  lemma WideIsHigh(r: string)
    ensures WideSpace(r) ==> 2 <= |r| <= 3 && r[0] >= '\U{80}' && r[|r| - 1] >= '\U{80}'
  {}

  lemma CleanFront(s: string)
    requires s != "" && Solid(s[0])
    ensures SpaceAtFront(s) == 0
  {
    if |s| >= 2 { WideIsHigh(s[..2]); }
    if |s| >= 3 { WideIsHigh(s[..3]); }
  }

  lemma CleanBack(s: string)
    requires s != "" && Solid(s[|s| - 1])
    ensures SpaceAtBack(s) == 0
  {
    if |s| >= 2 { WideIsHigh(s[|s| - 2..]); }
    if |s| >= 3 { WideIsHigh(s[|s| - 3..]); }
  }

  lemma TrimClean(s: string)
    requires Clean(s)
    ensures TrimSpace(s) == s
  {
    CleanFront(s);
    CleanBack(s);
  }

  /** ASCII white space around a clean string is trimmed, and nothing else. */
  lemma TrimPads(lead: string, s: string, trail: string)
    requires Only(lead, ASCII_SPACE) && Clean(s) && Only(trail, ASCII_SPACE)
    ensures TrimSpace(lead + (s + trail)) == s
  {
    TrimLead(lead, s + trail);
    TrimTrail(s, trail);
  }

  lemma {:induction false} TrimLead(lead: string, rest: string)
    requires Only(lead, ASCII_SPACE) && rest != "" && Solid(rest[0])
    ensures TrimLeft(lead + rest) == rest
    decreases |lead|
  {
    if lead == "" {
      assert lead + rest == rest;
      CleanFront(rest);
    } else {
      assert (lead + rest)[1..] == lead[1..] + rest;
      TrimLead(lead[1..], rest);
    }
  }

  lemma {:induction false} TrimTrail(s: string, trail: string)
    requires s != "" && Solid(s[|s| - 1]) && Only(trail, ASCII_SPACE)
    ensures TrimRight(s + trail) == s
    decreases |trail|
  {
    if trail == "" {
      assert s + trail == s;
      CleanBack(s);
    } else {
      var n := |trail| - 1;
      assert (s + trail)[..|s + trail| - 1] == s + trail[..n];
      TrimTrail(s, trail[..n]);
    }
  }

  /** A string TrimSpace erases disappears in front of a clean one. */
  lemma {:induction false} TrimBlankFront(w: string, s: string)
    requires TrimSpace(w) == "" && Clean(s)
    ensures TrimSpace(w + s) == s
  {
    BlankLeft(w);
    TrimLeftBlank(w, s);
    TrimClean(s);
    CleanFront(s);
  }

  lemma {:induction false} TrimLeftBlank(w: string, s: string)
    requires TrimLeft(w) == "" && s != "" && Solid(s[0])
    ensures TrimLeft(w + s) == s
    decreases |w|
  {
    if w == "" {
      assert w + s == s;
      CleanFront(s);
    } else {
      var n := SpaceAtFront(w);
      TrimLeftBlank(w[n..], s);
      FrontStable(w, s);
      assert (w + s)[n..] == w[n..] + s;
    }
  }

  lemma FrontStable(w: string, s: string)
    requires SpaceAtFront(w) > 0
    ensures SpaceAtFront(w + s) == SpaceAtFront(w)
  {
    var n := SpaceAtFront(w);
    assert (w + s)[0] == w[0];
    assert (w + s)[..n] == w[..n];
    if n == 3 { assert (w + s)[..2] == w[..2]; }
  }

  /** A string trimmed to nothing is trimmed to nothing from the left alone. */
  lemma {:induction false} BlankLeft(w: string)
    requires TrimSpace(w) == ""
    ensures TrimLeft(w) == ""
  {
    var t := TrimLeft(w);
    TrimLeftDone(w);
    if t != "" {
      LastPiece(t);
    }
  }

  lemma {:induction false} TrimLeftDone(w: string)
    ensures SpaceAtFront(TrimLeft(w)) == 0
    decreases |w|
  {
    if SpaceAtFront(w) != 0 {
      TrimLeftDone(w[SpaceAtFront(w)..]);
    }
  }

  /** If trimming on the right erases all of `t`, the last rune it removes is also at the front. */
  lemma {:induction false} LastPiece(t: string)
    requires t != "" && TrimRight(t) == ""
    ensures SpaceAtFront(t) > 0
    decreases |t|
  {
    var n := SpaceAtBack(t);
    var p := t[..|t| - n];
    if p == "" {
      assert t[|t| - n..] == t && t[..n] == t;
    } else {
      LastPiece(p);
      assert t == p + t[|t| - n..];
      FrontStable(p, t[|t| - n..]);
    }
  }
}
