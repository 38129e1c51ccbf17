/** What the recognizer of internal/abi/classify.go makes of each function it knows, whatever the arguments it does not
    read and whatever follows the head, and exactly when it refuses. */
module CalldataClasses {
  import opened Text
  import opened Calldata
  import IntFit

  /** Calldata of `f`: head words and anything after them. */
  function Call(f: Function, words: seq<Bytes>, tail: Bytes): Bytes {
    Packed(f, words) + tail
  }

  predicate AreWords(words: seq<Bytes>) {
    forall k | 0 <= k < |words| :: |words[k]| == 32
  }

  function BoolWord(flag: bool): Bytes {
    UintWord(Some(if flag then 1 else 0))
  }

  // --- one word ---

  lemma CallBody(f: Function, words: seq<Bytes>, tail: Bytes)
    ensures ClassifySelector(Call(f, words, tail)) == ClassifyBody(f, Concat(words) + tail)
  {
    var data := Call(f, words, tail);
    assert data == Selector(f) + (Concat(words) + tail);
    assert data[..4] == Selector(f) && data[4..] == Concat(words) + tail;
    SelectorRecognized(f);
  }

  lemma HeadWord(words: seq<Bytes>, tail: Bytes, i: nat)
    requires AreWords(words) && i < |words|
    ensures Word(Concat(words) + tail, i) == Some(words[i])
  {
    WordOf(words, i);
    SliceOfFront(Concat(words), tail, i * 32, i * 32 + 32);
  }

  lemma SliceOfFront(a: Bytes, tail: Bytes, i: nat, j: nat)
    requires i <= j
    ensures j <= |a| ==> j <= |a + tail| && (a + tail)[i..j] == a[i..j]
  {}

  lemma AddrAt(body: Bytes, i: nat, a: Bytes)
    requires IsAddress(a) && Word(body, i) == Some(AddrWord(a))
    ensures WordAddr(body, i) == Some(a)
  {
    assert AddrWord(a)[..12] == ZeroBytes(12) && AddrWord(a)[12..] == a;
  }

  lemma UintAt(body: Bytes, i: nat, n: nat, limit: nat)
    requires limit == Pow256(32) && n < limit && Word(body, i) == Some(UintWord(Some(n)))
    ensures WordBig(body, i) == Some(n)
  {
    UintWordReads(Some(n));
  }

  lemma BoolAt(body: Bytes, i: nat, flag: bool)
    requires Word(body, i) == Some(BoolWord(flag))
    ensures WordBool(body, i) == Some(flag)
  {
    if flag {
      assert ToBytes(1) == [1];
      assert BoolWord(true) == ZeroBytes(31) + [1];
    } else {
      assert BoolWord(false) == ZeroBytes(32);
    }
  }

  lemma AddressArg(words: seq<Bytes>, tail: Bytes, i: nat, a: Bytes)
    requires AreWords(words) && i < |words| && IsAddress(a) && words[i] == AddrWord(a)
    ensures WordAddr(Concat(words) + tail, i) == Some(a)
  {
    HeadWord(words, tail, i);
    AddrAt(Concat(words) + tail, i, a);
  }

  lemma UintArg(words: seq<Bytes>, tail: Bytes, i: nat, n: nat, limit: nat)
    requires AreWords(words) && i < |words| && limit == Pow256(32) && n < limit && words[i] == UintWord(Some(n))
    ensures WordBig(Concat(words) + tail, i) == Some(n)
  {
    HeadWord(words, tail, i);
    UintAt(Concat(words) + tail, i, n, limit);
  }

  lemma BoolArg(words: seq<Bytes>, tail: Bytes, i: nat, flag: bool)
    requires AreWords(words) && i < |words| && words[i] == BoolWord(flag)
    ensures WordBool(Concat(words) + tail, i) == Some(flag)
  {
    HeadWord(words, tail, i);
    BoolAt(Concat(words) + tail, i, flag);
  }

  // --- the sentinels ---

  lemma {:induction false} BytePowers(n: nat)
    ensures Pow256(n) == IntFit.Pow2(8 * n)
  {
    if n > 0 {
      BytePowers(n - 1);
      EightTwos(8 * (n - 1));
    }
  }

  lemma EightTwos(k: nat)
    ensures IntFit.Pow2(k + 8) == 256 * IntFit.Pow2(k)
  {
    assert IntFit.Pow2(k + 2) == 4 * IntFit.Pow2(k);
    assert IntFit.Pow2(k + 4) == 16 * IntFit.Pow2(k);
    assert IntFit.Pow2(k + 6) == 64 * IntFit.Pow2(k);
  }

  /** The largest number of so many bits. */
  predicate AllOnes(n: nat, bits: nat) {
    n + 1 == IntFit.Pow2(bits)
  }

  /** An amount is unlimited when it is the largest of 256, 160 or 96 bits. */
  predicate Largest(n: nat) {
    AllOnes(n, 256) || AllOnes(n, 160) || AllOnes(n, 96)
  }

  lemma SentinelIff(n: nat)
    ensures IsSentinel(n) <==> Largest(n)
  {
    Max256(n);
    Max160(n);
    Max96(n);
  }

  lemma Max256(n: nat)
    ensures n == MAX_UINT256 <==> AllOnes(n, 256)
  {
    AllOnesIff(n, 32, 256);
  }

  lemma Max160(n: nat)
    ensures n == MAX_UINT160 <==> AllOnes(n, 160)
  {
    AllOnesIff(n, 20, 160);
  }

  lemma Max96(n: nat)
    ensures n == MAX_UINT96 <==> AllOnes(n, 96)
  {
    AllOnesIff(n, 12, 96);
  }

  lemma AllOnesIff(n: nat, bytes: nat, bits: nat)
    requires bits == 8 * bytes
    ensures AllOnes(n, bits) <==> n == Pow256(bytes) - 1
  {
    BytePowers(bytes);
  }

  // --- approvals ---

  /** approve(spender, amount): unlimited exactly for a largest amount. */
  lemma ApproveClassified(words: seq<Bytes>, tail: Bytes, spender: Bytes, amount: nat, limit: nat)
    requires AreWords(words) && |words| >= 2 && IsAddress(spender) && limit == Pow256(32) && amount < limit
    requires words[0] == AddrWord(spender) && words[1] == UintWord(Some(amount))
    ensures ClassifySelector(Call(Approve, words, tail))
         == Some(SelectorClass(RecApprove, spender, NO_ADDRESS, Some(amount), Largest(amount)))
  {
    CallBody(Approve, words, tail);
    AddressArg(words, tail, 0, spender);
    UintArg(words, tail, 1, amount, limit);
    SentinelIff(amount);
  }

  /** increaseAllowance(spender, added): never unlimited. */
  lemma IncreaseAllowanceClassified(words: seq<Bytes>, tail: Bytes, spender: Bytes, added: nat, limit: nat)
    requires AreWords(words) && |words| >= 2 && IsAddress(spender) && limit == Pow256(32) && added < limit
    requires words[0] == AddrWord(spender) && words[1] == UintWord(Some(added))
    ensures ClassifySelector(Call(IncreaseAllowance, words, tail))
         == Some(SelectorClass(RecApprove, spender, NO_ADDRESS, Some(added), false))
  {
    CallBody(IncreaseAllowance, words, tail);
    AddressArg(words, tail, 0, spender);
    UintArg(words, tail, 1, added, limit);
  }

  /** setApprovalForAll(operator, approved): unlimited exactly when granted. */
  lemma SetApprovalForAllClassified(words: seq<Bytes>, tail: Bytes, operator: Bytes, approved: bool)
    requires AreWords(words) && |words| >= 2 && IsAddress(operator)
    requires words[0] == AddrWord(operator) && words[1] == BoolWord(approved)
    ensures ClassifySelector(Call(SetApprovalForAll, words, tail))
         == Some(SelectorClass(RecApprove, operator, NO_ADDRESS, None, approved))
  {
    CallBody(SetApprovalForAll, words, tail);
    AddressArg(words, tail, 0, operator);
    BoolArg(words, tail, 1, approved);
  }

  /** EIP-2612 permit(owner, spender, value, deadline, ..): unlimited exactly for a largest value or for the largest
      256-bit deadline. */
  lemma PermitClassified(words: seq<Bytes>, tail: Bytes, spender: Bytes, amount: nat, deadline: nat, limit: nat)
    requires AreWords(words) && |words| >= 4 && IsAddress(spender) && limit == Pow256(32)
    requires amount < limit && deadline < limit
    requires words[1] == AddrWord(spender) && words[2] == UintWord(Some(amount)) && words[3] == UintWord(Some(deadline))
    ensures ClassifySelector(Call(PermitEIP2612, words, tail))
         == Some(SelectorClass(RecApprove, spender, NO_ADDRESS, Some(amount), Largest(amount) || deadline == limit - 1))
  {
    var body := Concat(words) + tail;
    CallBody(PermitEIP2612, words, tail);
    PermitWords(words, tail, spender, amount, deadline, limit);
    PermitRead(body, spender, amount, deadline, limit);
    SentinelIff(amount);
  }

  lemma PermitWords(words: seq<Bytes>, tail: Bytes, spender: Bytes, amount: nat, deadline: nat, limit: nat)
    requires AreWords(words) && |words| >= 4 && IsAddress(spender) && limit == Pow256(32)
    requires amount < limit && deadline < limit
    requires words[1] == AddrWord(spender) && words[2] == UintWord(Some(amount)) && words[3] == UintWord(Some(deadline))
    ensures var body := Concat(words) + tail;
      WordAddr(body, 1) == Some(spender) && WordBig(body, 2) == Some(amount) && WordBig(body, 3) == Some(deadline)
  {
    AddressArg(words, tail, 1, spender);
    UintArg(words, tail, 2, amount, limit);
    UintArg(words, tail, 3, deadline, limit);
  }

  lemma PermitRead(body: Bytes, spender: Bytes, amount: nat, deadline: nat, limit: nat)
    requires WordAddr(body, 1) == Some(spender) && WordBig(body, 2) == Some(amount) && WordBig(body, 3) == Some(deadline)
    requires limit == MAX_UINT256 + 1
    ensures ClassifyBody(PermitEIP2612, body) == Some(SelectorClass(RecApprove, spender, NO_ADDRESS, Some(amount),
                                                                    IsSentinel(amount) || deadline == limit - 1))
  {}

  /** DAI permit(holder, spender, nonce, expiry, allowed, ..): unlimited exactly when allowed. */
  lemma PermitDAIClassified(words: seq<Bytes>, tail: Bytes, spender: Bytes, allowed: bool)
    requires AreWords(words) && |words| >= 5 && IsAddress(spender)
    requires words[1] == AddrWord(spender) && words[4] == BoolWord(allowed)
    ensures ClassifySelector(Call(PermitDAI, words, tail))
         == Some(SelectorClass(RecApprove, spender, NO_ADDRESS, None, allowed))
  {
    CallBody(PermitDAI, words, tail);
    AddressArg(words, tail, 1, spender);
    BoolArg(words, tail, 4, allowed);
  }

  /** Either Permit2 call is an approval of nobody in particular, whatever its body. */
  lemma Permit2Classified(f: Function, words: seq<Bytes>, tail: Bytes)
    requires f == Permit2Allowance || f == Permit2Transfer
    ensures ClassifySelector(Call(f, words, tail)) == Some(SelectorClass(RecApprove, NO_ADDRESS, NO_ADDRESS, None, false))
  {
    CallBody(f, words, tail);
  }

  // --- transfers ---

  lemma TransferClassified(words: seq<Bytes>, tail: Bytes, to: Bytes, amount: nat, limit: nat)
    requires AreWords(words) && |words| >= 2 && IsAddress(to) && limit == Pow256(32) && amount < limit
    requires words[0] == AddrWord(to) && words[1] == UintWord(Some(amount))
    ensures ClassifySelector(Call(Transfer, words, tail))
         == Some(SelectorClass(RecTransfer, NO_ADDRESS, to, Some(amount), false))
  {
    CallBody(Transfer, words, tail);
    AddressArg(words, tail, 0, to);
    UintArg(words, tail, 1, amount, limit);
  }

  /** transferFrom(sender, to, amount): the recipient is the second argument. */
  lemma TransferFromClassified(words: seq<Bytes>, tail: Bytes, to: Bytes, amount: nat, limit: nat)
    requires AreWords(words) && |words| >= 3 && IsAddress(to) && limit == Pow256(32) && amount < limit
    requires words[1] == AddrWord(to) && words[2] == UintWord(Some(amount))
    ensures ClassifySelector(Call(TransferFrom, words, tail))
         == Some(SelectorClass(RecTransfer, NO_ADDRESS, to, Some(amount), false))
  {
    CallBody(TransferFrom, words, tail);
    AddressArg(words, tail, 1, to);
    UintArg(words, tail, 2, amount, limit);
  }

  predicate IsNft(f: Function) {
    f == SafeTransferFrom1 || f == SafeTransferFrom2 || f == SafeTransferFrom3 || f == SafeBatchTransfer
  }

  /** The four safe transfers (sender, to, ..): the recipient is the second argument, and no amount is read. */
  lemma SafeTransferClassified(f: Function, words: seq<Bytes>, tail: Bytes, to: Bytes)
    requires IsNft(f) && AreWords(words) && |words| >= 2 && IsAddress(to) && words[1] == AddrWord(to)
    ensures ClassifySelector(Call(f, words, tail)) == Some(SelectorClass(RecTransfer, NO_ADDRESS, to, None, false))
  {
    CallBody(f, words, tail);
    AddressArg(words, tail, 1, to);
  }

  // --- refusals ---

  /** How many head words have to be there. */
  function Needed(f: Function): nat {
    match f
    case Approve | IncreaseAllowance | Transfer | SetApprovalForAll => 2
    case SafeTransferFrom1 | SafeTransferFrom2 | SafeTransferFrom3 | SafeBatchTransfer => 2
    case TransferFrom => 3
    case PermitEIP2612 => 4
    case PermitDAI => 5
    case Permit2Allowance | Permit2Transfer => 0
  }

  /** Which argument is the counterparty's address. */
  function Counterparty(f: Function): Option<nat> {
    match f
    case Approve | IncreaseAllowance | Transfer | SetApprovalForAll => Some(0)
    case Permit2Allowance | Permit2Transfer => None
    case _ => Some(1)
  }

  function Flag(f: Function): Option<nat> {
    match f
    case SetApprovalForAll => Some(1)
    case PermitDAI => Some(4)
    case _ => None
  }

  function Head(body: Bytes, i: nat): Bytes
    requires 32 * i + 32 <= |body|
  {
    body[32 * i..32 * i + 32]
  }

  /** The body is long enough, the counterparty's word has no more than 20 bytes of value, and a flag is 0 or 1. */
  predicate Decodable(f: Function, body: Bytes, addressLimit: nat) {
    && |body| >= 32 * Needed(f)
    && (Counterparty(f).Some? ==> FromBytes(Head(body, Counterparty(f).value)) < addressLimit)
    && (Flag(f).Some? ==> FromBytes(Head(body, Flag(f).value)) <= 1)
  }

  lemma {:induction false} BlankIff(b: Bytes)
    ensures Blank(b) <==> FromBytes(b) == 0
  {
    if b != [] {
      BlankIff(b[..|b| - 1]);
      assert Blank(b) <==> Blank(b[..|b| - 1]) && b[|b| - 1] == 0;
    }
  }

  lemma {:induction false} FromConcat(a: Bytes, b: Bytes)
    ensures FromBytes(a + b) == FromBytes(a) * Pow256(|b|) + FromBytes(b)
  {
    if b == [] {
      assert a + b == a;
    } else {
      var n := |b| - 1;
      FromConcat(a, b[..n]);
      assert (a + b)[..|a + b| - 1] == a + b[..n];
      Shifted(FromBytes(a), Pow256(n), FromBytes(b[..n]));
    }
  }

  lemma Shifted(x: int, p: int, y: int)
    ensures (x * p + y) * 256 == x * (256 * p) + y * 256
  {}

  lemma HighPart(x: nat, p: nat, y: nat)
    requires y < p
    ensures x * p + y < p <==> x == 0
  {
    if x > 0 {
      assert x * p >= p;
    }
  }

  /** A word's first `n` bytes are zero exactly when its number needs no more than the others. */
  lemma LeadingZeros(w: Bytes, n: nat, limit: nat)
    requires n <= |w| && limit == Pow256(|w| - n)
    ensures Blank(w[..n]) <==> FromBytes(w) < limit
  {
    assert w == w[..n] + w[n..];
    FromConcat(w[..n], w[n..]);
    FromBytesBound(w[n..]);
    HighPart(FromBytes(w[..n]), limit, FromBytes(w[n..]));
    BlankIff(w[..n]);
  }

  lemma AddrIff(body: Bytes, i: nat, limit: nat)
    requires limit == Pow256(20)
    ensures WordAddr(body, i).Some? <==> 32 * i + 32 <= |body| && FromBytes(Head(body, i)) < limit
  {
    if 32 * i + 32 <= |body| {
      LeadingZeros(Head(body, i), 12, limit);
    }
  }

  lemma BoolIff(body: Bytes, i: nat)
    ensures WordBool(body, i).Some? <==> 32 * i + 32 <= |body| && FromBytes(Head(body, i)) <= 1
  {
    if 32 * i + 32 <= |body| {
      var w := Head(body, i);
      LeadingZeros(w, 31, 256);
      assert w[..31] + [w[31]] == w;
      BlankIff(w[..31]);
      assert w[..|w| - 1] == w[..31];
    }
  }

  /** The recognizer refuses exactly what it cannot decode; it looks at no argument but those. */
  lemma ClassifiedIff(f: Function, body: Bytes, addressLimit: nat)
    requires addressLimit == Pow256(20)
    ensures ClassifySelector(Selector(f) + body).Some? <==> Decodable(f, body, addressLimit)
  {
    assert (Selector(f) + body)[..4] == Selector(f) && (Selector(f) + body)[4..] == body;
    SelectorRecognized(f);
    BodyIff(f, body);
    if Counterparty(f).Some? {
      AddrIff(body, Counterparty(f).value, addressLimit);
    }
    if Flag(f).Some? {
      BoolIff(body, Flag(f).value);
    }
  }

  lemma BodyIff(f: Function, body: Bytes)
    ensures ClassifyBody(f, body).Some? <==>
      && |body| >= 32 * Needed(f)
      && (Counterparty(f).Some? ==> WordAddr(body, Counterparty(f).value).Some?)
      && (Flag(f).Some? ==> WordBool(body, Flag(f).value).Some?)
  {
    match f {
      case Approve => ApproveIff(body, true);
      case IncreaseAllowance => ApproveIff(body, false);
      case PermitEIP2612 => PermitIff(body);
      case _ =>
    }
  }

  lemma ApproveIff(body: Bytes, sentinels: bool)
    ensures ApproveClass(AddrAmount(body, 0, 1), sentinels).Some? <==> |body| >= 64 && WordAddr(body, 0).Some?
  {}

  lemma PermitIff(body: Bytes)
    ensures PermitClass(body).Some? <==> |body| >= 128 && WordAddr(body, 1).Some?
  {}

  lemma UnknownIsRefused(data: Bytes)
    requires forall f: Function :: |data| < 4 || data[..4] != Selector(f)
    ensures ClassifySelector(data).None?
  {}

  // --- the builders' words ---

  /** safeTransferFrom of one token: every argument is in its place, and there is no more. */
  lemma SafeTransferWords(sender: Bytes, to: Bytes, tokenID: nat, limit: nat)
    requires IsAddress(sender) && IsAddress(to) && limit == Pow256(32) && tokenID < limit
    ensures var data := SafeTransferFromCalldata(sender, to, Some(tokenID), None);
      && |data| == 100 && data[..4] == Selector(SafeTransferFrom1)
      && WordAddr(data[4..], 0) == Some(sender) && WordAddr(data[4..], 1) == Some(to)
      && WordBig(data[4..], 2) == Some(tokenID)
  {
    var words := [AddrWord(sender), AddrWord(to), UintWord(Some(tokenID))];
    UintWordLength(tokenID, limit);
    PackedWords(SafeTransferFrom1, words);
    AddressArg(words, [], 0, sender);
    AddressArg(words, [], 1, to);
    UintArg(words, [], 2, tokenID, limit);
  }

  /** safeTransferFrom of an amount: likewise, with the offset of the empty byte string it ends in, and the length of
      that. */
  lemma SafeTransferAmountWords(sender: Bytes, to: Bytes, tokenID: nat, amount: nat, limit: nat)
    requires IsAddress(sender) && IsAddress(to) && limit == Pow256(32) && tokenID < limit && amount < limit
    ensures var data := SafeTransferFromCalldata(sender, to, Some(tokenID), Some(amount));
      && |data| == 196 && data[..4] == Selector(SafeTransferFrom3)
      && WordAddr(data[4..], 0) == Some(sender) && WordAddr(data[4..], 1) == Some(to)
      && WordBig(data[4..], 2) == Some(tokenID) && WordBig(data[4..], 3) == Some(amount)
      && WordBig(data[4..], 4) == Some(5 * 32) && WordBig(data[4..], 5) == Some(0)
  {
    PowAtLeast(32);
    SixWords(sender, to, tokenID, amount, 5 * 32, 0, limit,
             [AddrWord(sender), AddrWord(to), UintWord(Some(tokenID)), UintWord(Some(amount)),
              UintWord(Some(5 * 32)), UintWord(Some(0))]);
  }

  lemma SixWords(sender: Bytes, to: Bytes, n2: nat, n3: nat, n4: nat, n5: nat, limit: nat, words: seq<Bytes>)
    requires IsAddress(sender) && IsAddress(to) && limit == Pow256(32) && n2 < limit && n3 < limit && n4 < limit && n5 < limit
    requires words == [AddrWord(sender), AddrWord(to), UintWord(Some(n2)), UintWord(Some(n3)), UintWord(Some(n4)),
                       UintWord(Some(n5))]
    ensures var data := Packed(SafeTransferFrom3, words);
      && |data| == 196 && data[..4] == Selector(SafeTransferFrom3)
      && WordAddr(data[4..], 0) == Some(sender) && WordAddr(data[4..], 1) == Some(to)
      && WordBig(data[4..], 2) == Some(n2) && WordBig(data[4..], 3) == Some(n3)
      && WordBig(data[4..], 4) == Some(n4) && WordBig(data[4..], 5) == Some(n5)
  {
    UintWordLength(n2, limit);
    UintWordLength(n3, limit);
    UintWordLength(n4, limit);
    UintWordLength(n5, limit);
    PackedWords(SafeTransferFrom3, words);
    AddressArg(words, [], 0, sender);
    AddressArg(words, [], 1, to);
    FourUints(words, n2, n3, n4, n5, limit);
  }

  lemma FourUints(words: seq<Bytes>, n2: nat, n3: nat, n4: nat, n5: nat, limit: nat)
    requires AreWords(words) && |words| == 6
    requires limit == Pow256(32) && n2 < limit && n3 < limit && n4 < limit && n5 < limit
    requires words[2] == UintWord(Some(n2)) && words[3] == UintWord(Some(n3))
    requires words[4] == UintWord(Some(n4)) && words[5] == UintWord(Some(n5))
    ensures var body := Concat(words) + [];
      && WordBig(body, 2) == Some(n2) && WordBig(body, 3) == Some(n3)
      && WordBig(body, 4) == Some(n4) && WordBig(body, 5) == Some(n5)
  {
    UintArg(words, [], 2, n2, limit);
    UintArg(words, [], 3, n3, limit);
    UintArg(words, [], 4, n4, limit);
    UintArg(words, [], 5, n5, limit);
  }

  lemma UintWordLength(n: nat, limit: nat)
    requires limit == Pow256(32) && n < limit
    ensures |UintWord(Some(n))| == 32
  {
    UintWordReads(Some(n));
  }

  lemma {:induction false} PowAtLeast(n: nat)
    ensures n > 0 ==> Pow256(n) >= 256
  {
    if n > 1 {
      PowAtLeast(n - 1);
    }
  }

  lemma PackedWords(f: Function, words: seq<Bytes>)
    requires AreWords(words)
    ensures var data := Packed(f, words);
      |data| == 4 + 32 * |words| && data[..4] == Selector(f) && data[4..] == Concat(words) + []
  {
    ConcatLength(words);
    assert Concat(words) + [] == Concat(words);
  }

  lemma {:induction false} ConcatLength(words: seq<Bytes>)
    requires AreWords(words)
    ensures |Concat(words)| == 32 * |words|
  {
    if words != [] {
      ConcatLength(words[1..]);
    }
  }
}
