/** Account references and names: internal/domain/account_ref.go and the name and index grammar of
    internal/keys/meta.go. */
module AccountRef {
  import opened Text

  const MAX_UINT32: nat := 0xFFFF_FFFF

  // --- indexes ---

  /** A canonical decimal uint32: the value it has, if it is one. */
  function ParseIndex(s: string): (r: Option<nat>)
    ensures r.Some? ==> r.value <= MAX_UINT32
  {
    if s == "" || !Digits(s) || (|s| > 1 && s[0] == '0') || Value(s) > MAX_UINT32 then None else Some(Value(s))
  }

  lemma PrefixValue(s: string, i: nat)
    requires i < |s| && Digits(s)
    ensures Digits(s[..i]) && Digits(s[..i + 1]) && Value(s[..i + 1]) == Value(s[..i]) * 10 + DigitValue(s[i])
  {
    assert s[..i + 1][..i] == s[..i];
  }

  /** A prefix already too large makes the whole too large. */
  lemma {:induction false} PrefixAtMost(s: string, i: nat)
    requires i <= |s| && Digits(s)
    ensures Digits(s[..i]) && Value(s[..i]) <= Value(s)
    decreases |s| - i
  {
    if i < |s| {
      PrefixAtMost(s, i + 1);
      PrefixValue(s, i);
    } else {
      assert s[..i] == s;
    }
  }

  /** parseIndex of account_ref.go: one pass for the digits, one for the value. */
  method ParseIndexDigitsFirst(s: string) returns (r: Option<nat>)
    ensures r == ParseIndex(s)
  {
    if s == "" { return None; }
    for i := 0 to |s|
      invariant Digits(s[..i])
    {
      if s[i] < '0' || s[i] > '9' { return None; }
      assert s[..i + 1] == s[..i] + [s[i]];
    }
    assert s[..|s|] == s;
    if |s| > 1 && s[0] == '0' { return None; }
    var v := 0;
    for i := 0 to |s|
      invariant v <= MAX_UINT32 && v == Value(s[..i])
    {
      PrefixValue(s, i);
      PrefixAtMost(s, i + 1);
      v := v * 10 + DigitValue(s[i]);
      assert v < 0x1_0000_0000_0000_0000;
      if v > MAX_UINT32 { return None; }
    }
    return Some(v);
  }

  lemma PrefixStep(s: string, i: nat)
    requires i < |s| && Digits(s[..i]) && '0' <= s[i] <= '9'
    ensures Digits(s[..i + 1]) && Value(s[..i + 1]) == Value(s[..i]) * 10 + DigitValue(s[i])
  {
    assert s[..i + 1] == s[..i] + [s[i]] && s[..i + 1][..i] == s[..i];
  }

  /** parseDecimalIndex of meta.go: digits and value in one pass. It is the same function. */
  method ParseDecimalIndex(s: string) returns (r: Option<nat>)
    ensures r == ParseIndex(s)
  {
    if s == "" { return None; }
    if |s| > 1 && s[0] == '0' { return None; }
    var v := 0;
    for i := 0 to |s|
      invariant Digits(s[..i]) && v <= MAX_UINT32 && v == Value(s[..i])
    {
      if s[i] < '0' || s[i] > '9' { return None; }
      PrefixStep(s, i);
      v := v * 10 + DigitValue(s[i]);
      assert v < 0x1_0000_0000_0000_0000;
      if v > MAX_UINT32 {
        if Digits(s) { PrefixAtMost(s, i + 1); }
        return None;
      }
    }
    assert s[..|s|] == s;
    return Some(v);
  }

  /** uitoa: digits written from the back of a 20-byte buffer, enough for every uint64. */
  method Uitoa(n0: nat) returns (s: string)
    requires n0 < 0x1_0000_0000_0000_0000
    ensures s == Itoa(n0)
  {
    if n0 == 0 { return "0"; }
    var buf := new char[20];
    var i, n: nat := 20, n0;
    TwentyDigits();
    assert buf[20..] == "";
    while n > 0
      invariant 0 <= i <= 20 && n < Pow10(i) && Written(n0, n, buf[i..])
    {
      ghost var low := buf[i..];
      i := i - 1;
      buf[i] := DigitChar(n % 10);
      assert buf[i..] == [DigitChar(n % 10)] + low;
      LeadingStep(n0, n, low, i);
      n := n / 10;
    }
    return buf[i..];
  }

  /** `low` is what is written of the digits of `n0` when `n` remains. */
  predicate Written(n0: nat, n: nat, low: string) {
    Itoa(n0) == Leading(n) + low
  }

  /** The digits still to be written: none for zero. */
  function Leading(n: nat): string {
    if n == 0 then "" else Itoa(n)
  }

  lemma LeadingStep(n0: nat, n: nat, low: string, i: nat)
    requires n > 0 && n < Pow10(i + 1) && Written(n0, n, low)
    ensures Written(n0, n / 10, [DigitChar(n % 10)] + low)
    ensures n / 10 < Pow10(i)
  {
    LeadingDigit(n);
    Associates(Leading(n / 10), [DigitChar(n % 10)], low);
  }

  lemma LeadingDigit(n: nat)
    requires n > 0
    ensures Leading(n) == Leading(n / 10) + [DigitChar(n % 10)]
  {}

  lemma TwentyDigits()
    ensures Pow10(20) > 0x1_0000_0000_0000_0000
  {
    Pow10Add(10, 10);
    Pow10Add(5, 5);
    assert Pow10(5) == 100000;
  }

  /** indexKey and parseDecimalIndex are inverse: an index has one key, and a key one index. */
  lemma IndexKeyIff(s: string, i: nat)
    requires i <= MAX_UINT32
    ensures ParseIndex(s) == Some(i) <==> s == Itoa(i)
  {
    if ParseIndex(s) == Some(i) {
      CanonicalNumeral(s);
    }
  }

  // --- names ---

  predicate IsHex(c: char) {
    ('0' <= c <= '9') || ('a' <= c <= 'f') || ('A' <= c <= 'F')
  }

  predicate Has0x(s: string) {
    |s| >= 2 && s[0] == '0' && (s[1] == 'x' || s[1] == 'X')
  }

  /** looksLikeAddressShape, and (on a 0x-prefixed string) common.IsHexAddress. */
  predicate AddressShape(s: string) {
    |s| == 42 && Has0x(s) && forall k | 2 <= k < 42 :: IsHex(s[k])
  }

  predicate LowerOrDigit(c: char) {
    ('a' <= c <= 'z') || ('0' <= c <= '9')
  }

  predicate ValidName(s: string) {
    && s != "" && |s| <= 64 && !AddressShape(s)
    && LowerOrDigit(s[0])
    && forall k | 1 <= k < |s| :: LowerOrDigit(s[k]) || s[k] == '-' || s[k] == '_'
  }

  predicate ValidAlias(s: string) {
    ValidName(s) && !Digits(s)
  }

  /** looksLikeAddressShape. */
  method LooksLikeAddress(s: string) returns (ok: bool)
    ensures ok == AddressShape(s)
  {
    if |s| != 42 { return false; }
    if s[0] != '0' || (s[1] != 'x' && s[1] != 'X') { return false; }
    for i := 2 to 42
      invariant forall k | 2 <= k < i :: IsHex(s[k])
    {
      if !IsHex(s[i]) { return false; }
    }
    return true;
  }

  /** validName. */
  method CheckName(s: string) returns (ok: bool)
    ensures ok == ValidName(s)
  {
    if s == "" || |s| > 64 { return false; }
    var shaped := LooksLikeAddress(s);
    if shaped { return false; }
    for i := 0 to |s|
      invariant i > 0 ==> LowerOrDigit(s[0])
      invariant forall k | 1 <= k < i :: LowerOrDigit(s[k]) || s[k] == '-' || s[k] == '_'
    {
      if i == 0 {
        if !LowerOrDigit(s[i]) { return false; }
        continue;
      }
      if !LowerOrDigit(s[i]) && s[i] != '-' && s[i] != '_' { return false; }
    }
    return true;
  }

  /** validAlias, with the loop of isAllDigits. */
  method CheckAlias(s: string) returns (ok: bool)
    ensures ok == ValidAlias(s)
  {
    var valid := CheckName(s);
    if !valid { return false; }
    for i := 0 to |s|
      invariant Digits(s[..i])
    {
      if s[i] < '0' || s[i] > '9' {
        return true;
      }
      assert s[..i + 1] == s[..i] + [s[i]];
    }
    assert s[..|s|] == s;
    return false;
  }

  predicate SegmentChar(c: char) {
    ('a' <= c <= 'z') || ('A' <= c <= 'Z') || ('0' <= c <= '9') || c == '-' || c == '_' || c == '.'
  }

  predicate ValidSegment(s: string) {
    s != "" && forall k | 0 <= k < |s| :: SegmentChar(s[k])
  }

  /** validNameSegment. */
  method ValidNameSegment(s: string) returns (ok: bool)
    ensures ok == ValidSegment(s)
  {
    if s == "" { return false; }
    for i := 0 to |s|
      invariant forall k | 0 <= k < i :: SegmentChar(s[k])
    {
      if !SegmentChar(s[i]) { return false; }
    }
    return true;
  }

  // --- references ---

  /** AccountRef, without the raw text. */
  datatype Ref =
    | HDIndex(wallet: string, index: nat)
    | HDAlias(wallet: string, alias: string)
    | Named(name: string)
    | Address(hex: string)
    | ENS(name: string)

  datatype RefError = Empty | BadRef | Ambiguous | BadAddress | BadENS

  datatype Parsed = Ref(ref: Ref) | Failed(error: RefError)

  const DOT_ETH: string := ".eth"

  predicate LooksLikeENS(s: string) {
    |s| >= 4 && ToLower(s)[|s| - 4..] == DOT_ETH
  }

  function ParseTail(wallet: string, tail: string): Parsed {
    if wallet == "" || tail == "" || '/' in tail then Failed(BadRef)
    else if AddressShape(wallet) || LooksLikeENS(wallet) then Failed(Ambiguous)
    else if ParseIndex(tail).Some? then Ref(HDIndex(wallet, ParseIndex(tail).value))
    else if !ValidSegment(tail) then Failed(BadRef)
    else Ref(HDAlias(wallet, tail))
  }

  function ParseAccountRef(raw: string): Parsed {
    ParseTrimmed(TrimSpace(raw))
  }

  function ParseTrimmed(s: string): Parsed {
    if s == "" then Failed(Empty)
    else
      var i := Find(s, '/');
      if i < |s| then ParseTail(s[..i], s[i + 1..])
      else if Has0x(s) then (if AddressShape(s) then Ref(Address(s)) else Failed(BadAddress))
      else if LooksLikeENS(s) then
        var stem := s[..|s| - 4];
        if stem == "" || stem[0] == '.' || stem[|stem| - 1] == '.' then Failed(BadENS) else Ref(ENS(stem))
      else if !ValidSegment(s) then Failed(BadRef)
      else Ref(Named(s))
  }

  // --- names read back ---

  lemma NameIsPlain(s: string)
    requires ValidName(s)
    ensures ToLower(s) == s && '/' !in s && '.' !in s && ValidSegment(s) && Solid(s[0]) && Solid(s[|s| - 1])
    ensures !LooksLikeENS(s)
  {
    assert ToLower(s) == s;
    if |s| >= 4 {
      assert s[|s| - 4..][0] == s[|s| - 4] != '.';
    }
  }

  lemma SplitAtSlash(w: string, tail: string)
    requires '/' !in w
    ensures var s := w + (['/'] + tail); Find(s, '/') == |w| && s[..|w|] == w && s[|w| + 1..] == tail
  {
    var s := w + (['/'] + tail);
    assert forall k | 0 <= k < |w| :: s[k] == w[k] && w[k] in w;
    assert s[|w|] == '/';
  }

  lemma PathParses(w: string, tail: string)
    requires ValidName(w) && tail != "" && Solid(tail[|tail| - 1]) && '/' !in tail
    ensures ParseAccountRef(w + (['/'] + tail)) == ParseTail(w, tail)
    ensures ParseTail(w, tail) ==
      if ParseIndex(tail).Some? then Ref(HDIndex(w, ParseIndex(tail).value))
      else if !ValidSegment(tail) then Failed(BadRef)
      else Ref(HDAlias(w, tail))
  {
    NameIsPlain(w);
    SplitAtSlash(w, tail);
    TrimClean(w + (['/'] + tail));
  }

  lemma NumeralIsPlain(i: nat)
    ensures '/' !in Itoa(i) && Solid(Itoa(i)[|Itoa(i)| - 1])
  {}

  /** "wallet/index" reads back, for every valid wallet name and every uint32 index. */
  lemma IndexRefReadsBack(w: string, i: nat)
    requires ValidName(w) && i <= MAX_UINT32
    ensures ParseAccountRef(w + (['/'] + Itoa(i))) == Ref(HDIndex(w, i))
  {
    NumeralIsPlain(i);
    IndexKeyIff(Itoa(i), i);
    PathParses(w, Itoa(i));
  }

  /** "wallet/alias" reads back as that alias, never as an index. */
  lemma AliasRefReadsBack(w: string, alias: string)
    requires ValidName(w) && ValidAlias(alias)
    ensures ParseAccountRef(w + (['/'] + alias)) == Ref(HDAlias(w, alias))
  {
    NameIsPlain(alias);
    PathParses(w, alias);
  }

  /** A standalone name reads back exactly when it does not begin with 0x. */
  lemma NameReadsBackIff(name: string)
    requires ValidName(name)
    ensures ParseAccountRef(name) == if Has0x(name) then Failed(BadAddress) else Ref(Named(name))
  {
    NameIsPlain(name);
    TrimClean(name);
    assert forall k | 0 <= k < |name| :: name[k] in name;
  }

  /** Such names exist: "0xabc" is valid, and its own text is no reference. */
  lemma UnreachableName(name: string)
    requires name == "0xabc"
    ensures ValidName(name) && ParseAccountRef(name) == Failed(BadAddress)
  {
    assert LowerOrDigit(name[0]) && LowerOrDigit(name[1]) && LowerOrDigit(name[2]) && LowerOrDigit(name[3]);
    assert ValidName(name);
    NameReadsBackIff(name);
  }
}
