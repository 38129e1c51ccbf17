/** The calldata builders of internal/erc/erc.go and the recognizer of internal/abi/classify.go. */
module Calldata {
  import opened Text

  type byte = b: int | 0 <= b < 256
  type Bytes = seq<byte>

  /** common.Address. */
  predicate IsAddress(a: Bytes) {
    |a| == 20
  }

  // --- big-endian integers ---

  function Pow256(n: nat): (p: nat)
    ensures p > 0
  {
    if n == 0 then 1 else 256 * Pow256(n - 1)
  }

  /** big.Int.SetBytes. */
  function FromBytes(b: Bytes): nat {
    if b == [] then 0 else FromBytes(b[..|b| - 1]) * 256 + b[|b| - 1]
  }

  /** big.Int.Bytes: the minimal big-endian form. */
  function ToBytes(v: nat): (b: Bytes)
    ensures FromBytes(b) == v
  {
    if v == 0 then []
    else
      var b := ToBytes(v / 256) + [v % 256];
      assert b[..|b| - 1] == ToBytes(v / 256);
      b
  }

  function ZeroBytes(n: nat): (z: Bytes)
    ensures |z| == n && forall k | 0 <= k < n :: z[k] == 0
  {
    seq(n, k => 0)
  }

  /** common.LeftPadBytes: a longer slice is returned as it is. */
  function LeftPad(b: Bytes, n: nat): (r: Bytes)
    ensures |r| == if |b| < n then n else |b|
  {
    if |b| < n then ZeroBytes(n - |b|) + b else b
  }

  lemma {:induction false} BytesFit(v: nat, n: nat)
    ensures |ToBytes(v)| <= n <==> v < Pow256(n)
  {
    if v > 0 && n > 0 {
      BytesFit(v / 256, n - 1);
      assert v / 256 < Pow256(n - 1) <==> v < 256 * Pow256(n - 1) by { Divide(v, Pow256(n - 1)); }
    }
  }

  lemma Divide(v: nat, p: nat)
    ensures v / 256 < p <==> v < 256 * p
  {}

  lemma {:induction false} FromPadded(k: nat, b: Bytes)
    ensures FromBytes(ZeroBytes(k) + b) == FromBytes(b)
  {
    var z := ZeroBytes(k) + b;
    if b != [] {
      assert z[..|z| - 1] == ZeroBytes(k) + b[..|b| - 1];
      FromPadded(k, b[..|b| - 1]);
    } else if k > 0 {
      assert z[..|z| - 1] == ZeroBytes(k - 1) + [];
      FromPadded(k - 1, []);
    }
  }

  lemma {:induction false} FromBytesBound(b: Bytes)
    ensures FromBytes(b) < Pow256(|b|)
  {
    if b != [] {
      FromBytesBound(b[..|b| - 1]);
    }
  }

  /** Byte strings of one length are determined by their number. */
  lemma {:induction false} FromBytesInjective(a: Bytes, b: Bytes)
    requires |a| == |b| && FromBytes(a) == FromBytes(b)
    ensures a == b
  {
    if a != [] {
      var n := |a| - 1;
      FromBytesInjective(a[..n], b[..n]);
      assert a == a[..n] + [a[n]] && b == b[..n] + [b[n]];
    }
  }

  // --- erc.go ---

  /** The functions the recognizer knows; the builders write three of them. */
  datatype Function =
    Approve | IncreaseAllowance | Transfer | TransferFrom | SetApprovalForAll
    | SafeTransferFrom1 | SafeTransferFrom2 | SafeTransferFrom3 | SafeBatchTransfer
    | PermitEIP2612 | PermitDAI | Permit2Allowance | Permit2Transfer

  /** The first four bytes of the keccak hash of each canonical signature. */
  function Selector(f: Function): (b: Bytes)
    ensures |b| == 4
  {
    match f
    case Approve => [0x09, 0x5e, 0xa7, 0xb3]
    case IncreaseAllowance => [0x39, 0x50, 0x93, 0x51]
    case Transfer => [0xa9, 0x05, 0x9c, 0xbb]
    case TransferFrom => [0x23, 0xb8, 0x72, 0xdd]
    case SetApprovalForAll => [0xa2, 0x2c, 0xb4, 0x65]
    case SafeTransferFrom1 => [0x42, 0x84, 0x2e, 0x0e]
    case SafeTransferFrom2 => [0xb8, 0x8d, 0x4f, 0xde]
    case SafeTransferFrom3 => [0xf2, 0x42, 0x43, 0x2a]
    case SafeBatchTransfer => [0x2e, 0xb2, 0xc2, 0xd6]
    case PermitEIP2612 => [0xd5, 0x05, 0xac, 0xcf]
    case PermitDAI => [0x8f, 0xcb, 0xaf, 0x0c]
    case Permit2Allowance => [0x2b, 0x67, 0xb5, 0x70]
    case Permit2Transfer => [0x30, 0xf2, 0x8b, 0x7a]
  }

  const MAX_UINT256: nat := Pow256(32) - 1
  const MAX_UINT160: nat := Pow256(20) - 1
  const MAX_UINT96: nat := Pow256(12) - 1

  /** IsUnlimitedAmount; None is the nil amount. */
  predicate IsUnlimitedAmount(amount: Option<int>) {
    amount.Some? && (amount.value == MAX_UINT256 || amount.value == MAX_UINT160 || amount.value == MAX_UINT96)
  }

  function AddrWord(a: Bytes): Bytes {
    LeftPad(a, 32)
  }

  function UintWord(v: Option<int>): Bytes {
    if v.None? || v.value < 0 then ZeroBytes(32) else LeftPad(ToBytes(v.value), 32)
  }

  function Concat(words: seq<Bytes>): Bytes {
    if words == [] then [] else words[0] + Concat(words[1..])
  }

  function Packed(f: Function, words: seq<Bytes>): Bytes {
    Selector(f) + Concat(words)
  }

  /** pack. */
  method Pack(f: Function, words: seq<Bytes>) returns (out: Bytes)
    ensures out == Packed(f, words)
  {
    out := Selector(f);
    for i := 0 to |words|
      invariant out + Concat(words[i..]) == Packed(f, words)
    {
      assert words[i..][1..] == words[i + 1..];
      assert out + (words[i] + Concat(words[i + 1..])) == out + words[i] + Concat(words[i + 1..]);
      out := out + words[i];
    }
    assert out + Concat(words[|words|..]) == out;
  }

  function TransferCalldata(to: Bytes, amount: Option<int>): Bytes {
    Packed(Transfer, [AddrWord(to), UintWord(amount)])
  }

  function ApproveCalldata(spender: Bytes, amount: Option<int>): Bytes {
    Packed(Approve, [AddrWord(spender), UintWord(amount)])
  }

  function SafeTransferFromCalldata(sender: Bytes, to: Bytes, tokenID: Option<int>, amount: Option<int>): Bytes {
    if amount.None? then Packed(SafeTransferFrom1, [AddrWord(sender), AddrWord(to), UintWord(tokenID)])
    else
      Packed(SafeTransferFrom3, [AddrWord(sender), AddrWord(to), UintWord(tokenID), UintWord(amount),
                                 UintWord(Some(5 * 32)), UintWord(Some(0))])
  }

  // --- classify.go ---

  datatype Kind = RecApprove | RecTransfer

  datatype SelectorClass = SelectorClass(kind: Kind, spender: Bytes, recipient: Bytes, amount: Option<nat>, unlimited: bool)

  const NO_ADDRESS: Bytes := ZeroBytes(20)

  predicate IsSentinel(amount: nat) {
    amount == MAX_UINT256 || amount == MAX_UINT160 || amount == MAX_UINT96
  }

  function Word(body: Bytes, i: nat): Option<Bytes> {
    if |body| < i * 32 + 32 then None else Some(body[i * 32..i * 32 + 32])
  }

  predicate Blank(b: Bytes) {
    forall k | 0 <= k < |b| :: b[k] == 0
  }

  function WordAddr(body: Bytes, i: nat): (r: Option<Bytes>)
    ensures r.Some? ==> IsAddress(r.value)
  {
    var w := Word(body, i);
    if w.None? || !Blank(w.value[..12]) then None else Some(w.value[12..])
  }

  function WordBig(body: Bytes, i: nat): Option<nat> {
    var w := Word(body, i);
    if w.None? then None else Some(FromBytes(w.value))
  }

  function WordBool(body: Bytes, i: nat): Option<bool> {
    var w := Word(body, i);
    if w.None? || !Blank(w.value[..31]) then None
    else if w.value[31] == 0 then Some(false)
    else if w.value[31] == 1 then Some(true)
    else None
  }

  /** The address at word `i` and the amount at word `j`. */
  function AddrAmount(body: Bytes, i: nat, j: nat): Option<(Bytes, nat)> {
    var a, v := WordAddr(body, i), WordBig(body, j);
    if a.None? || v.None? then None else Some((a.value, v.value))
  }

  function ApproveClass(x: Option<(Bytes, nat)>, sentinels: bool): Option<SelectorClass> {
    if x.None? then None
    else Some(SelectorClass(RecApprove, x.value.0, NO_ADDRESS, Some(x.value.1), sentinels && IsSentinel(x.value.1)))
  }

  function TransferClass(x: Option<(Bytes, nat)>): Option<SelectorClass> {
    if x.None? then None else Some(SelectorClass(RecTransfer, NO_ADDRESS, x.value.0, Some(x.value.1), false))
  }

  function FlagClass(spender: Option<Bytes>, flag: Option<bool>): Option<SelectorClass> {
    if spender.None? || flag.None? then None
    else Some(SelectorClass(RecApprove, spender.value, NO_ADDRESS, None, flag.value))
  }

  function PermitClass(body: Bytes): Option<SelectorClass> {
    var x, deadline := AddrAmount(body, 1, 2), WordBig(body, 3);
    if x.None? || deadline.None? then None
    else Some(SelectorClass(RecApprove, x.value.0, NO_ADDRESS, Some(x.value.1),
                            IsSentinel(x.value.1) || deadline.value == MAX_UINT256))
  }

  function NftClass(to: Option<Bytes>): Option<SelectorClass> {
    if to.None? then None else Some(SelectorClass(RecTransfer, NO_ADDRESS, to.value, None, false))
  }

  function ClassifyBody(f: Function, body: Bytes): Option<SelectorClass> {
    match f
    case Approve => ApproveClass(AddrAmount(body, 0, 1), true)
    case IncreaseAllowance => ApproveClass(AddrAmount(body, 0, 1), false)
    case Transfer => TransferClass(AddrAmount(body, 0, 1))
    case TransferFrom => TransferClass(AddrAmount(body, 1, 2))
    case SetApprovalForAll => FlagClass(WordAddr(body, 0), WordBool(body, 1))
    case SafeTransferFrom1 | SafeTransferFrom2 | SafeTransferFrom3 | SafeBatchTransfer => NftClass(WordAddr(body, 1))
    case PermitEIP2612 => PermitClass(body)
    case PermitDAI => FlagClass(WordAddr(body, 1), WordBool(body, 4))
    case Permit2Allowance | Permit2Transfer => Some(SelectorClass(RecApprove, NO_ADDRESS, NO_ADDRESS, None, false))
  }

  /** The switch on the selector. */
  function Recognized(b: Bytes): (r: Option<Function>)
    ensures r.Some? ==> Selector(r.value) == b
  {
    if b == Selector(Approve) then Some(Approve)
    else if b == Selector(IncreaseAllowance) then Some(IncreaseAllowance)
    else if b == Selector(Transfer) then Some(Transfer)
    else if b == Selector(TransferFrom) then Some(TransferFrom)
    else if b == Selector(SetApprovalForAll) then Some(SetApprovalForAll)
    else if b == Selector(SafeTransferFrom1) then Some(SafeTransferFrom1)
    else if b == Selector(SafeTransferFrom2) then Some(SafeTransferFrom2)
    else if b == Selector(SafeTransferFrom3) then Some(SafeTransferFrom3)
    else if b == Selector(SafeBatchTransfer) then Some(SafeBatchTransfer)
    else if b == Selector(PermitEIP2612) then Some(PermitEIP2612)
    else if b == Selector(PermitDAI) then Some(PermitDAI)
    else if b == Selector(Permit2Allowance) then Some(Permit2Allowance)
    else if b == Selector(Permit2Transfer) then Some(Permit2Transfer)
    else None
  }

  /** No two functions share a selector. */
  lemma SelectorRecognized(f: Function)
    ensures Recognized(Selector(f)) == Some(f)
  {
    FirstByte(f);
    FirstByte(Recognized(Selector(f)).value);
  }

  lemma FirstByte(f: Function)
    ensures Recognized(Selector(f)).Some?
    ensures Selector(f)[0] ==
      match f
      case Approve => 0x09
      case IncreaseAllowance => 0x39
      case Transfer => 0xa9
      case TransferFrom => 0x23
      case SetApprovalForAll => 0xa2
      case SafeTransferFrom1 => 0x42
      case SafeTransferFrom2 => 0xb8
      case SafeTransferFrom3 => 0xf2
      case SafeBatchTransfer => 0x2e
      case PermitEIP2612 => 0xd5
      case PermitDAI => 0x8f
      case Permit2Allowance => 0x2b
      case Permit2Transfer => 0x30
  {}

  function ClassifySelector(data: Bytes): Option<SelectorClass> {
    if |data| < 4 || Recognized(data[..4]).None? then None else ClassifyBody(Recognized(data[..4]).value, data[4..])
  }

  // --- reading words back ---

  lemma ConcatTwo(a: Bytes, b: Bytes)
    ensures Concat([a, b]) == a + b
  {
    assert [a, b][1..] == [b] && [b][1..] == [];
    assert Concat([b]) == b + [];
  }

  /** The first words of a packed body, whatever follows them. */
  lemma {:induction false} WordOf(words: seq<Bytes>, i: nat)
    requires i < |words| && forall k | 0 <= k <= i :: |words[k]| == 32
    ensures Word(Concat(words), i) == Some(words[i])
  {
    var w, rest := words[0], Concat(words[1..]);
    if i == 0 {
      assert (w + rest)[..32] == w;
    } else {
      WordOf(words[1..], i - 1);
      var j := (i - 1) * 32;
      assert (w + rest)[i * 32..i * 32 + 32] == rest[j..j + 32];
    }
  }

  lemma PackedParts(f: Function, words: seq<Bytes>)
    ensures ClassifySelector(Packed(f, words)) == ClassifyBody(f, Concat(words))
  {
    assert Packed(f, words)[..4] == Selector(f) && Packed(f, words)[4..] == Concat(words);
    SelectorRecognized(f);
  }

  lemma AddrReads(words: seq<Bytes>, i: nat, a: Bytes)
    requires i < |words| && (forall k | 0 <= k <= i :: |words[k]| == 32) && IsAddress(a) && words[i] == AddrWord(a)
    ensures WordAddr(Concat(words), i) == Some(a)
  {
    WordOf(words, i);
    assert words[i][..12] == ZeroBytes(12) && words[i][12..] == a;
  }

  /** What a uint word stands for: nil and negative values are written as zero. */
  function Encoded(v: Option<int>): nat {
    if v.None? || v.value < 0 then 0 else v.value
  }

  predicate Fits(v: Option<int>) {
    Encoded(v) < Pow256(32)
  }

  lemma UintWordReads(v: Option<int>)
    requires Fits(v)
    ensures |UintWord(v)| == 32 && FromBytes(UintWord(v)) == Encoded(v)
  {
    if v.None? || v.value < 0 {
      assert ZeroBytes(32) + [] == ZeroBytes(32);
      FromPadded(32, []);
    } else {
      BytesFit(v.value, 32);
      FromPadded(32 - |ToBytes(v.value)|, ToBytes(v.value));
    }
  }

  lemma PairReads(a: Bytes, v: Option<int>)
    requires IsAddress(a) && Fits(v)
    ensures AddrAmount(Concat([AddrWord(a), UintWord(v)]), 0, 1) == Some((a, Encoded(v)))
  {
    var words := [AddrWord(a), UintWord(v)];
    UintWordReads(v);
    AddrReads(words, 0, a);
    WordOf(words, 1);
  }

  // --- the recognizer inverts the builders ---

  /** approve: the spender and the amount come back, and the recognizer and the builder's caller agree on what
      is unlimited. */
  lemma ApproveRecognized(spender: Bytes, amount: Option<int>)
    requires IsAddress(spender) && Fits(amount)
    ensures ClassifySelector(ApproveCalldata(spender, amount))
         == Some(SelectorClass(RecApprove, spender, NO_ADDRESS, Some(Encoded(amount)), IsUnlimitedAmount(amount)))
  {
    PackedParts(Approve, [AddrWord(spender), UintWord(amount)]);
    PairReads(spender, amount);
    assert Pow256(12) > 1;
    MaxPositive();
  }

  lemma MaxPositive()
    ensures MAX_UINT256 > 0 && MAX_UINT160 > 0 && MAX_UINT96 > 0
  {
    assert Pow256(32) == 256 * Pow256(31) && Pow256(20) == 256 * Pow256(19) && Pow256(12) == 256 * Pow256(11);
  }

  lemma TransferRecognized(to: Bytes, amount: Option<int>)
    requires IsAddress(to) && Fits(amount)
    ensures ClassifySelector(TransferCalldata(to, amount))
         == Some(SelectorClass(RecTransfer, NO_ADDRESS, to, Some(Encoded(amount)), false))
  {
    PackedParts(Transfer, [AddrWord(to), UintWord(amount)]);
    PairReads(to, amount);
  }

  /** Either NFT form gives the recipient, even for a token id or amount too large for its word. */
  lemma SafeTransferFromRecognized(sender: Bytes, to: Bytes, tokenID: Option<int>, amount: Option<int>)
    requires IsAddress(sender) && IsAddress(to)
    ensures ClassifySelector(SafeTransferFromCalldata(sender, to, tokenID, amount))
         == Some(SelectorClass(RecTransfer, NO_ADDRESS, to, None, false))
  {
    if amount.None? {
      NftRecognized(SafeTransferFrom1, [AddrWord(sender), AddrWord(to), UintWord(tokenID)], to);
    } else {
      NftRecognized(SafeTransferFrom3, [AddrWord(sender), AddrWord(to), UintWord(tokenID), UintWord(amount),
                                        UintWord(Some(5 * 32)), UintWord(Some(0))], to);
    }
  }

  lemma NftRecognized(f: Function, words: seq<Bytes>, to: Bytes)
    requires f == SafeTransferFrom1 || f == SafeTransferFrom3
    requires |words| >= 2 && |words[0]| == 32 && IsAddress(to) && words[1] == AddrWord(to)
    ensures ClassifySelector(Packed(f, words)) == Some(SelectorClass(RecTransfer, NO_ADDRESS, to, None, false))
  {
    PackedParts(f, words);
    AddrReads(words, 1, to);
  }

  // --- beyond 256 bits ---

  /** What the recognizer reads of an amount in the last word: all of it, or its leading 32 bytes. */
  function ReadBack(amount: nat): nat {
    var b := ToBytes(amount);
    if |b| <= 32 then amount else FromBytes(b[..32])
  }

  lemma ReadBackFits(amount: nat)
    ensures ReadBack(amount) < Pow256(32)
    ensures ReadBack(amount) == amount <==> amount < Pow256(32)
  {
    BytesFit(amount, 32);
    if |ToBytes(amount)| > 32 {
      FromBytesBound(ToBytes(amount)[..32]);
    }
  }

  /** Both builders, for every amount: the address comes back, and ReadBack of the amount. */
  lemma AnyAmountReads(a: Bytes, amount: nat)
    requires IsAddress(a)
    ensures ClassifySelector(ApproveCalldata(a, Some(amount)))
         == Some(SelectorClass(RecApprove, a, NO_ADDRESS, Some(ReadBack(amount)), IsSentinel(ReadBack(amount))))
    ensures ClassifySelector(TransferCalldata(a, Some(amount)))
         == Some(SelectorClass(RecTransfer, NO_ADDRESS, a, Some(ReadBack(amount)), false))
  {
    var words := [AddrWord(a), UintWord(Some(amount))];
    AnyPairReads(a, amount);
    PackedParts(Approve, words);
    PackedParts(Transfer, words);
  }

  lemma AnyPairReads(a: Bytes, amount: nat)
    requires IsAddress(a)
    ensures AddrAmount(Concat([AddrWord(a), UintWord(Some(amount))]), 0, 1) == Some((a, ReadBack(amount)))
  {
    BytesFit(amount, 32);
    if amount < Pow256(32) {
      PairReads(a, Some(amount));
    } else {
      LongPairReads(a, ToBytes(amount));
    }
  }

  lemma LongPairReads(a: Bytes, b: Bytes)
    requires IsAddress(a) && |b| > 32
    ensures AddrAmount(Concat([AddrWord(a), b]), 0, 1) == Some((a, FromBytes(b[..32])))
  {
    AddrReads([AddrWord(a), b], 0, a);
    ConcatTwo(AddrWord(a), b);
    assert (AddrWord(a) + b)[32..64] == b[..32];
  }

  /** The builders do not check the amount: what the recognizer reads back is the amount exactly when it fits
      its word, for an approval and for a transfer. */
  lemma AmountRecoveredIff(a: Bytes, amount: nat)
    requires IsAddress(a)
    ensures var approve, transfer :=
        ClassifySelector(ApproveCalldata(a, Some(amount))), ClassifySelector(TransferCalldata(a, Some(amount)));
      && approve.Some? && (approve.value.amount == Some(amount) <==> amount < Pow256(32))
      && transfer.Some? && (transfer.value.amount == Some(amount) <==> amount < Pow256(32))
  {
    AnyAmountReads(a, amount);
    ReadBackFits(amount);
  }

  /** The recognizer and IsUnlimitedAmount agree on "unlimited" exactly when the amount fits its word, or its
      leading 32 bytes are not all ones. */
  lemma UnlimitedAgreeIff(spender: Bytes, amount: nat)
    requires IsAddress(spender)
    ensures var c := ClassifySelector(ApproveCalldata(spender, Some(amount)));
      && c.Some?
      && ((c.value.unlimited <==> IsUnlimitedAmount(Some(amount)))
          <==> amount < Pow256(32) || ReadBack(amount) != MAX_UINT256)
  {
    AnyAmountReads(spender, amount);
    ReadBackFits(amount);
    if amount >= Pow256(32) {
      LongReadsHigh(amount);
      HighSentinel(ReadBack(amount));
      BeyondSentinels(amount);
    }
  }

  /** The leading bytes of an oversized amount begin with a nonzero one. */
  lemma LongReadsHigh(amount: nat)
    requires amount >= Pow256(32)
    ensures ReadBack(amount) >= Pow256(31)
  {
    BytesFit(amount, 32);
    LeadsNonzero(amount);
    AtLeast(ToBytes(amount)[..32]);
  }

  /** So only the largest sentinel can be read back from one. */
  lemma HighSentinel(v: nat)
    requires v >= Pow256(31)
    ensures IsSentinel(v) <==> v == MAX_UINT256
  {
    PowersGrow();
  }

  lemma BeyondSentinels(amount: nat)
    requires amount >= Pow256(32)
    ensures !IsUnlimitedAmount(Some(amount))
  {
    SentinelsOrdered();
    var v: Option<int> := Some(amount);
    assert v.value > MAX_UINT256;
  }

  lemma SentinelsOrdered()
    ensures MAX_UINT96 < MAX_UINT160 < MAX_UINT256
  {
    PowersGrow();
  }

  lemma {:induction false} LeadsNonzero(v: nat)
    requires v > 0
    ensures |ToBytes(v)| > 0 && ToBytes(v)[0] != 0
  {
    if v >= 256 {
      LeadsNonzero(v / 256);
    } else {
      assert v / 256 == 0 && ToBytes(v / 256) == [];
    }
  }

  lemma {:induction false} AtLeast(b: Bytes)
    requires b != [] && b[0] != 0
    ensures FromBytes(b) >= Pow256(|b| - 1)
  {
    if |b| > 1 {
      AtLeast(b[..|b| - 1]);
    }
  }

  /** They do part: 2^264 - 1 is no sentinel and reads back as the sentinel 2^256 - 1. */
  lemma UnlimitedPartsBeyondWord(spender: Bytes, amount: nat)
    requires IsAddress(spender) && amount + 1 == 256 * Pow256(32)
    ensures amount >= Pow256(32) && ReadBack(amount) == MAX_UINT256
    ensures ClassifySelector(ApproveCalldata(spender, Some(amount))).Some?
    ensures ClassifySelector(ApproveCalldata(spender, Some(amount))).value.unlimited != IsUnlimitedAmount(Some(amount))
  {
    LeadingBytes(amount);
    UnlimitedAgreeIff(spender, amount);
  }

  lemma LeadingBytes(amount: nat)
    requires amount + 1 == 256 * Pow256(32)
    ensures amount >= Pow256(32) && ReadBack(amount) == MAX_UINT256
  {
    var m := MAX_UINT256;
    BytesFit(amount, 32);
    BytesFit(m, 32);
    LastByte(amount, m);
    assert ToBytes(amount)[..32] == ToBytes(m);
  }

  lemma LastByte(v: nat, m: nat)
    requires v == 256 * m + 255
    ensures ToBytes(v) == ToBytes(m) + [255]
  {
    assert v / 256 == m && v % 256 == 255;
  }

  lemma PowersGrow()
    ensures Pow256(12) < Pow256(20) < Pow256(31) < Pow256(32)
  {
    Grows(12, 8);
    Grows(20, 11);
    Grows(31, 1);
  }

  lemma {:induction false} Grows(m: nat, k: nat)
    requires k > 0
    ensures Pow256(m) < Pow256(m + k)
  {
    if k > 1 {
      Grows(m, k - 1);
    }
  }

  // --- every input ---

  /** Word `i` of `body'` is that of `body`, if that has one. */
  predicate Stable(body: Bytes, body': Bytes, i: nat) {
    Word(body, i).Some? ==> Word(body', i) == Word(body, i)
  }

  lemma WordPrefix(body: Bytes, more: Bytes, i: nat)
    ensures Stable(body, body + more, i)
  {
    if Word(body, i).Some? {
      assert (body + more)[i * 32..i * 32 + 32] == body[i * 32..i * 32 + 32];
    }
  }

  /** Bytes after a recognized call never change its classification. */
  lemma TrailingBytesIrrelevant(data: Bytes, more: Bytes)
    requires ClassifySelector(data).Some?
    ensures ClassifySelector(data + more) == ClassifySelector(data)
  {
    var body := data[4..];
    assert (data + more)[..4] == data[..4] && (data + more)[4..] == body + more;
    WordPrefix(body, more, 0);
    WordPrefix(body, more, 1);
    WordPrefix(body, more, 2);
    WordPrefix(body, more, 3);
    WordPrefix(body, more, 4);
    BodyPrefix(Recognized(data[..4]).value, body, body + more);
  }

  lemma BodyPrefix(f: Function, body: Bytes, body': Bytes)
    requires Stable(body, body', 0) && Stable(body, body', 1) && Stable(body, body', 2)
    requires Stable(body, body', 3) && Stable(body, body', 4)
    requires ClassifyBody(f, body).Some?
    ensures ClassifyBody(f, body') == ClassifyBody(f, body)
  {
    match f
    case Approve | IncreaseAllowance | Transfer => PairStable(body, body', 0, 1);
    case TransferFrom => PairStable(body, body', 1, 2);
    case SetApprovalForAll => FlagStable(body, body', 0, 1);
    case SafeTransferFrom1 | SafeTransferFrom2 | SafeTransferFrom3 | SafeBatchTransfer =>
    case PermitEIP2612 =>
      PairStable(body, body', 1, 2);
      PermitStable(body, body');
    case PermitDAI => FlagStable(body, body', 1, 4);
    case Permit2Allowance | Permit2Transfer =>
  }

  lemma PairStable(body: Bytes, body': Bytes, i: nat, j: nat)
    requires Stable(body, body', i) && Stable(body, body', j)
    ensures AddrAmount(body, i, j).Some? ==> AddrAmount(body', i, j) == AddrAmount(body, i, j)
  {}

  lemma FlagStable(body: Bytes, body': Bytes, i: nat, j: nat)
    requires Stable(body, body', i) && Stable(body, body', j)
    ensures FlagClass(WordAddr(body, i), WordBool(body, j)).Some? ==>
      FlagClass(WordAddr(body', i), WordBool(body', j)) == FlagClass(WordAddr(body, i), WordBool(body, j))
  {}

  lemma PermitStable(body: Bytes, body': Bytes)
    requires AddrAmount(body, 1, 2).Some? ==> AddrAmount(body', 1, 2) == AddrAmount(body, 1, 2)
    requires Stable(body, body', 3)
    ensures PermitClass(body).Some? ==> PermitClass(body') == PermitClass(body)
  {}

  /** An approval is recognized only if it begins with the very bytes the builder writes for what was read. */
  lemma ApproveIsBuilt(data: Bytes)
    requires ClassifySelector(data).Some? && data[..4] == Selector(Approve)
    ensures var c := ClassifySelector(data).value;
      c.amount.Some? && |data| >= 68 && data[..68] == ApproveCalldata(c.spender, Some(c.amount.value))
  {
    SelectorRecognized(Approve);
    PairIsBuilt(data[4..], Approve);
    assert data[..68] == data[..4] + data[4..][..64];
  }

  /** The same for a transfer. */
  lemma TransferIsBuilt(data: Bytes)
    requires ClassifySelector(data).Some? && data[..4] == Selector(Transfer)
    ensures var c := ClassifySelector(data).value;
      c.amount.Some? && |data| >= 68 && data[..68] == TransferCalldata(c.recipient, Some(c.amount.value))
  {
    SelectorRecognized(Transfer);
    PairIsBuilt(data[4..], Transfer);
    assert data[..68] == data[..4] + data[4..][..64];
  }

  lemma PairIsBuilt(body: Bytes, f: Function)
    requires AddrAmount(body, 0, 1).Some?
    ensures var (a, v) := AddrAmount(body, 0, 1).value;
      |body| >= 64 && Selector(f) + body[..64] == Packed(f, [AddrWord(a), UintWord(Some(v))])
  {
    var w0, w1 := body[0..32], body[32..64];
    AddrIsBuilt(w0);
    UintIsBuilt(w1);
    ConcatTwo(w0, w1);
    assert w0 + w1 == body[..64];
  }

  lemma AddrIsBuilt(w: Bytes)
    requires |w| == 32 && Blank(w[..12])
    ensures AddrWord(w[12..]) == w
  {
    assert w[..12] == ZeroBytes(12);
    assert w == w[..12] + w[12..];
  }

  lemma UintIsBuilt(w: Bytes)
    requires |w| == 32
    ensures UintWord(Some(FromBytes(w))) == w
  {
    FromBytesBound(w);
    UintWordReads(Some(FromBytes(w)));
    FromBytesInjective(UintWord(Some(FromBytes(w))), w);
  }

  /** No half-filled class: an approval names no recipient, a transfer neither a spender nor an unlimited grant,
      and every address has its 20 bytes. */
  lemma ClassIsWhole(data: Bytes)
    requires ClassifySelector(data).Some?
    ensures var c := ClassifySelector(data).value;
      && IsAddress(c.spender) && IsAddress(c.recipient)
      && (c.kind.RecApprove? ==> c.recipient == NO_ADDRESS)
      && (c.kind.RecTransfer? ==> c.spender == NO_ADDRESS && !c.unlimited)
      && (c.amount.Some? ==> c.amount.value < Pow256(32))
  {
    var body := data[4..];
    AmountBound(body, 1);
    AmountBound(body, 2);
    BodyIsWhole(Recognized(data[..4]).value, body, Pow256(32));
  }

  predicate Whole(c: SelectorClass, limit: nat) {
    && IsAddress(c.spender) && IsAddress(c.recipient)
    && (c.kind.RecApprove? ==> c.recipient == NO_ADDRESS)
    && (c.kind.RecTransfer? ==> c.spender == NO_ADDRESS && !c.unlimited)
    && (c.amount.Some? ==> c.amount.value < limit)
  }

  lemma BodyIsWhole(f: Function, body: Bytes, limit: nat)
    requires ClassifyBody(f, body).Some?
    requires WordBig(body, 1).Some? ==> WordBig(body, 1).value < limit
    requires WordBig(body, 2).Some? ==> WordBig(body, 2).value < limit
    ensures Whole(ClassifyBody(f, body).value, limit)
  {
    match f {
      case Approve => ApproveIsWhole(body, 0, 1, true, limit);
      case IncreaseAllowance => ApproveIsWhole(body, 0, 1, false, limit);
      case PermitEIP2612 => PermitIsWhole(body, limit);
      case _ =>
    }
  }

  lemma ApproveIsWhole(body: Bytes, i: nat, j: nat, sentinels: bool, limit: nat)
    requires WordBig(body, j).Some? ==> WordBig(body, j).value < limit
    ensures var c := ApproveClass(AddrAmount(body, i, j), sentinels); c.Some? ==> Whole(c.value, limit)
  {}

  lemma PermitIsWhole(body: Bytes, limit: nat)
    requires WordBig(body, 2).Some? ==> WordBig(body, 2).value < limit
    ensures PermitClass(body).Some? ==> Whole(PermitClass(body).value, limit)
  {}

  lemma AmountBound(body: Bytes, i: nat)
    ensures WordBig(body, i).Some? ==> WordBig(body, i).value < Pow256(32)
  {
    if Word(body, i).Some? {
      FromBytesBound(Word(body, i).value);
    }
  }
}
