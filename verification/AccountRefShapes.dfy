/** Which texts internal/domain/account_ref.go takes for which reference, and why it refuses the others. */
module AccountRefShapes {
  import opened Text
  import opened AccountRef
  import opened Keystore

  // --- the shapes, as texts ---

  /** "0x" or "0X" and forty hex digits. */
  ghost predicate IsAddressText(s: string) {
    exists x: char, digits: string :: (x == 'x' || x == 'X') && |digits| == 40 && AllHex(digits) && s == ['0', x] + digits
  }

  predicate AllHex(s: string) {
    forall k | 0 <= k < |s| :: IsHex(s[k])
  }

  /** Some stem and ".eth", in any case. */
  predicate IsENSText(s: string, stem: string) {
    |s| == |stem| + 4 && stem <= s && ToLower(s[|stem|..]) == ".eth"
  }

  predicate GoodStem(stem: string) {
    stem != "" && stem[0] != '.' && stem[|stem| - 1] != '.'
  }

  /** A wallet part no one could take for an address or an ENS name. */
  ghost predicate PlainWallet(w: string) {
    !IsAddressText(w) && !(exists stem :: IsENSText(w, stem))
  }

  ghost predicate IsIndexText(s: string) {
    exists i: nat :: i <= MAX_UINT32 && s == Itoa(i)
  }

  /** `s` is `w`, a slash and `tail`, neither of them empty, with no other slash. */
  predicate IsPath(s: string, w: string, tail: string) {
    s == w + (['/'] + tail) && w != "" && tail != "" && '/' !in w && '/' !in tail
  }

  lemma AddressShapeIff(s: string)
    ensures AddressShape(s) <==> IsAddressText(s)
  {
    if AddressShape(s) {
      assert s == ['0', s[1]] + s[2..];
      assert AllHex(s[2..]);
    }
    forall x: char, digits: string | (x == 'x' || x == 'X') && |digits| == 40 && AllHex(digits) && s == ['0', x] + digits
      ensures AddressShape(s)
    {
      assert forall k | 2 <= k < 42 :: s[k] == digits[k - 2];
    }
  }

  lemma ENSTextIff(s: string, stem: string)
    ensures LooksLikeENS(s) && stem == s[..|s| - 4] <==> IsENSText(s, stem)
  {
    if |s| >= 4 {
      assert ToLower(s)[|s| - 4..] == ToLower(s[|s| - 4..]);
    }
  }

  lemma LooksLikeENSIff(s: string)
    ensures LooksLikeENS(s) <==> exists stem :: IsENSText(s, stem)
  {
    if LooksLikeENS(s) {
      ENSTextIff(s, s[..|s| - 4]);
    }
    forall stem | IsENSText(s, stem)
      ensures LooksLikeENS(s)
    {
      ENSTextIff(s, stem);
    }
  }

  lemma PlainWalletIff(w: string)
    ensures PlainWallet(w) <==> !AddressShape(w) && !LooksLikeENS(w)
  {
    AddressShapeIff(w);
    LooksLikeENSIff(w);
  }

  lemma IndexTextIff(s: string)
    ensures ParseIndex(s).Some? <==> IsIndexText(s)
    ensures forall i: nat :: ParseIndex(s) == Some(i) <==> i <= MAX_UINT32 && s == Itoa(i)
  {
    forall i: nat
      ensures ParseIndex(s) == Some(i) <==> i <= MAX_UINT32 && s == Itoa(i)
    {
      if i <= MAX_UINT32 { IndexKeyIff(s, i); }
    }
  }

  // --- what a text means, and why it means nothing ---

  /** The one reference a trimmed text means: an address taken as it is; an ENS name, case kept, that is no path and
      does not begin with 0x; a path to the index or, if the tail is no uint32 but a segment, the alias; or a name. */
  ghost predicate Means(s: string, ref: Ref) {
    match ref
    case Address(hex) => hex == s && IsAddressText(s)
    case ENS(stem) => IsENSText(s, stem) && GoodStem(stem) && '/' !in s && !Has0x(s)
    case HDIndex(w, index) => IsPath(s, w, Itoa(index)) && PlainWallet(w) && index <= MAX_UINT32
    case HDAlias(w, alias) => IsPath(s, w, alias) && PlainWallet(w) && ValidSegment(alias) && !IsIndexText(alias)
    case Named(name) => name == s && ValidSegment(s) && !Has0x(s) && !LooksENS(s)
  }

  ghost predicate LooksENS(s: string) {
    exists stem :: IsENSText(s, stem)
  }

  ghost predicate Refused(s: string, e: RefError) {
    match e
    case Empty => s == ""
    case BadAddress => Has0x(s) && '/' !in s && !IsAddressText(s)
    case BadENS => '/' !in s && !Has0x(s) && exists stem :: IsENSText(s, stem) && !GoodStem(stem)
    case Ambiguous => exists w, tail :: IsPath(s, w, tail) && !PlainWallet(w)
    case BadRef =>
      && s != ""
      && if '/' in s then forall w, tail | IsPath(s, w, tail) :: PlainWallet(w) && !IsIndexText(tail) && !ValidSegment(tail)
         else !Has0x(s) && !LooksENS(s) && !ValidSegment(s)
  }

  // --- texts without a slash ---

  lemma FindSlash(s: string)
    ensures Find(s, '/') < |s| <==> '/' in s
  {}

  lemma NoSlashShapes(s: string)
    ensures AddressShape(s) ==> '/' !in s
    ensures ValidSegment(s) ==> '/' !in s
  {}

  lemma FlatAddress(s: string, hex: string)
    ensures ParseTrimmed(s) == Parsed.Ref(Address(hex)) <==> hex == s && IsAddressText(s)
    ensures ParseTrimmed(s) == Failed(BadAddress) <==> Has0x(s) && '/' !in s && !IsAddressText(s)
  {
    AddressShapeIff(s);
    NoSlashShapes(s);
    FindSlash(s);
  }

  lemma FlatENS(s: string, stem: string)
    ensures ParseTrimmed(s) == Parsed.Ref(ENS(stem)) <==> IsENSText(s, stem) && GoodStem(stem) && '/' !in s && !Has0x(s)
  {
    FindSlash(s);
    ENSTextIff(s, stem);
  }

  lemma FlatBadENS(s: string)
    ensures ParseTrimmed(s) == Failed(BadENS)
      <==> '/' !in s && !Has0x(s) && exists stem :: IsENSText(s, stem) && !GoodStem(stem)
  {
    FindSlash(s);
    if LooksLikeENS(s) {
      ENSTextIff(s, s[..|s| - 4]);
    }
    forall stem | IsENSText(s, stem)
      ensures LooksLikeENS(s) && stem == s[..|s| - 4]
    {
      ENSTextIff(s, stem);
    }
  }

  lemma FlatNamed(s: string, name: string)
    ensures ParseTrimmed(s) == Parsed.Ref(Named(name)) <==> name == s && ValidSegment(s) && !Has0x(s) && !LooksENS(s)
    ensures '/' !in s ==>
      (ParseTrimmed(s) == Failed(BadRef) <==> s != "" && !Has0x(s) && !LooksENS(s) && !ValidSegment(s))
  {
    FindSlash(s);
    NoSlashShapes(s);
    LooksLikeENSIff(s);
  }

  // --- paths ---

  /** A text with a slash is cut at the first one, and is a path in at most that way. */
  lemma PathParsed(s: string, i: nat)
    requires '/' in s && i == Find(s, '/')
    ensures i < |s| && ParseTrimmed(s) == ParseTail(s[..i], s[i + 1..])
    ensures forall w, tail ::
      (IsPath(s, w, tail) <==> w == s[..i] && tail == s[i + 1..] && w != "" && tail != "" && '/' !in tail)
  {
    CutAt(s, i);
    forall w, tail | IsPath(s, w, tail)
      ensures w == s[..i] && tail == s[i + 1..]
    {
      SplitAtSlash(w, tail);
    }
  }

  lemma CutAt(s: string, i: nat)
    requires '/' in s && i == Find(s, '/')
    ensures i < |s| && s == s[..i] + (['/'] + s[i + 1..]) && '/' !in s[..i]
  {
    FindSlash(s);
    RejoinAt(s, i);
  }

  lemma RejoinAt(s: string, i: nat)
    ensures i < |s| && s[i] == '/' ==> s == s[..i] + (['/'] + s[i + 1..])
  {}

  lemma SlashIn(w: string, tail: string)
    ensures '/' in w + (['/'] + tail)
  {
    assert (w + (['/'] + tail))[|w|] == '/';
  }

  lemma NoPath(s: string)
    requires '/' !in s
    ensures forall w, tail :: !IsPath(s, w, tail)
  {
    forall w, tail
      ensures !IsPath(s, w, tail)
    {
      SlashIn(w, tail);
    }
  }

  lemma NoTail(s: string)
    requires '/' !in s
    ensures !ParseTrimmed(s).Ref? || !(ParseTrimmed(s).ref.HDIndex? || ParseTrimmed(s).ref.HDAlias?)
    ensures ParseTrimmed(s) != Failed(Ambiguous)
  {
    FindSlash(s);
  }

  lemma PathIndex(s: string, w: string, index: nat)
    ensures ParseTrimmed(s) == Parsed.Ref(HDIndex(w, index))
      <==> IsPath(s, w, Itoa(index)) && PlainWallet(w) && index <= MAX_UINT32
  {
    if '/' in s {
      var i := Find(s, '/');
      PathParsed(s, i);
      TailIndex(s[..i], s[i + 1..], w, index);
    } else {
      NoPath(s);
      NoTail(s);
    }
  }

  lemma TailIndex(a: string, b: string, w: string, index: nat)
    ensures ParseTail(a, b) == Parsed.Ref(HDIndex(w, index)) <==>
      w == a && b == Itoa(index) && a != "" && b != "" && '/' !in b && PlainWallet(w) && index <= MAX_UINT32
  {
    PlainWalletIff(a);
    IndexTextIff(b);
  }

  lemma PathAlias(s: string, w: string, alias: string)
    ensures ParseTrimmed(s) == Parsed.Ref(HDAlias(w, alias))
      <==> IsPath(s, w, alias) && PlainWallet(w) && ValidSegment(alias) && !IsIndexText(alias)
  {
    if '/' in s {
      var i := Find(s, '/');
      PathParsed(s, i);
      PlainWalletIff(s[..i]);
      IndexTextIff(s[i + 1..]);
    } else {
      NoPath(s);
      NoTail(s);
    }
  }

  lemma PathAmbiguous(s: string)
    ensures ParseTrimmed(s) == Failed(Ambiguous) <==> exists w, tail :: IsPath(s, w, tail) && !PlainWallet(w)
  {
    if '/' in s {
      var i := Find(s, '/');
      PathParsed(s, i);
      PlainWalletIff(s[..i]);
      assert ParseTrimmed(s) == Failed(Ambiguous) ==> IsPath(s, s[..i], s[i + 1..]) && !PlainWallet(s[..i]);
    } else {
      NoPath(s);
      NoTail(s);
    }
  }

  lemma PathBadRef(s: string)
    requires '/' in s
    ensures ParseTrimmed(s) == Failed(BadRef)
      <==> forall w, tail | IsPath(s, w, tail) :: PlainWallet(w) && !IsIndexText(tail) && !ValidSegment(tail)
  {
    var i := Find(s, '/');
    PathParsed(s, i);
    PlainWalletIff(s[..i]);
    IndexTextIff(s[i + 1..]);
  }

  // --- the classification ---

  /** A text is taken for a reference if and only if, trimmed, it means that one. */
  lemma RefIff(raw: string, ref: Ref)
    ensures ParseAccountRef(raw) == Parsed.Ref(ref) <==> Means(TrimSpace(raw), ref)
  {
    TrimmedRefIff(TrimSpace(raw), ref);
  }

  lemma TrimmedRefIff(s: string, ref: Ref)
    ensures ParseTrimmed(s) == Parsed.Ref(ref) <==> Means(s, ref)
  {
    match ref
    case Address(hex) => FlatAddress(s, hex);
    case ENS(stem) => FlatENS(s, stem);
    case HDIndex(w, index) => PathIndex(s, w, index);
    case HDAlias(w, alias) => PathAlias(s, w, alias);
    case Named(name) => FlatNamed(s, name);
  }

  /** And it is refused, with each error, exactly as `Refused` says. */
  lemma ErrorIff(raw: string, e: RefError)
    ensures ParseAccountRef(raw) == Failed(e) <==> Refused(TrimSpace(raw), e)
  {
    TrimmedErrorIff(TrimSpace(raw), e);
  }

  lemma TrimmedErrorIff(s: string, e: RefError)
    ensures ParseTrimmed(s) == Failed(e) <==> Refused(s, e)
  {
    match e
    case Empty =>
    case BadAddress => FlatAddress(s, s);
    case BadENS => FlatBadENS(s);
    case Ambiguous => PathAmbiguous(s);
    case BadRef => if '/' in s { PathBadRef(s); } else { FlatNamed(s, s); }
  }

  /** Any forty hex digits behind 0x, white space around them or not, are the address they spell, and no identity to
      sign with. */
  lemma AddressReadsBack(m: Meta, raw: string)
    requires IsAddressText(TrimSpace(raw))
    ensures ParseAccountRef(raw) == Parsed.Ref(Address(TrimSpace(raw)))
    ensures AddressOf(m, ParseAccountRef(raw).ref) == Ok(TrimSpace(raw))
    ensures LookupSigning(m, ParseAccountRef(raw).ref) == Err(ReadOnlyContext)
  {
    RefIff(raw, Address(TrimSpace(raw)));
  }
}
