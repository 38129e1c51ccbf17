/** The keystore's metadata: internal/keys meta.go, wallet.go, account.go and lookup.go.

    `Meta` is the decoded meta.json. Each mutation is first a function from the metadata it loads to the
    metadata it saves, then a method of `Store` that follows the source; saving replaces the file atomically,
    and a save that reports an error has left the old metadata or the new. Addresses are their checksummed text, so equal addresses are equal strings. */
module Keystore {
  import opened Text
  import opened AccountRef

  datatype HDAccount = HDAccount(address: string, alias: string)

  type uint32 = n: nat | n <= MAX_UINT32

  /** `accounts` is keyed by the decimal index. */
  datatype Wallet = Wallet(name: string, next: uint32, accounts: map<string, HDAccount>)

  datatype Standalone = Standalone(name: string, address: string)

  datatype Meta = Meta(chosen: string, wallets: map<string, Wallet>, accounts: map<string, Standalone>)

  datatype KeyError =
    InvalidName | Collision | NotFound | BadIndex | BadKey | Derivation | ReadOnlyContext | SaveFailed

  datatype Result<+T> = Ok(value: T) | Err(error: KeyError)

  /** What a mutation does to the metadata it loaded. */
  datatype Outcome<+T> = Done(meta: Meta, value: T) | Unchanged(value: T) | Refused(error: KeyError)

  function After<T>(m: Meta, out: Outcome<T>): Meta {
    if out.Done? then out.meta else m
  }

  const HARDENED: nat := 0x8000_0000

  // --- lookups ---

  predicate IsWallet(m: Meta, id: string, name: string) {
    id in m.wallets && ToLower(m.wallets[id].name) == ToLower(name)
  }

  predicate IsStandalone(m: Meta, id: string, name: string) {
    id in m.accounts && ToLower(m.accounts[id].name) == ToLower(name)
  }

  /** findWalletByName. */
  ghost function WalletNamed(m: Meta, name: string): (r: Option<string>)
    ensures r.Some? ==> IsWallet(m, r.value, name)
    ensures r.None? ==> forall id :: !IsWallet(m, id, name)
  {
    if exists id :: IsWallet(m, id, name) then
      var id :| IsWallet(m, id, name);
      Some(id)
    else None
  }

  /** findStandaloneByName. */
  ghost function StandaloneNamed(m: Meta, name: string): (r: Option<string>)
    ensures r.Some? ==> IsStandalone(m, r.value, name)
    ensures r.None? ==> forall id :: !IsStandalone(m, id, name)
  {
    if exists id :: IsStandalone(m, id, name) then
      var id :| IsStandalone(m, id, name);
      Some(id)
    else None
  }

  /** nameExists; `exclude` is the wallet a rename may ignore. */
  ghost predicate NameExists(m: Meta, name: string, exclude: Option<string>) {
    || (exists id :: IsWallet(m, id, name) && exclude != Some(id))
    || (exists id :: IsStandalone(m, id, name) && exclude != Some(id))
  }

  predicate HasAlias(w: Wallet, k: string, alias: string) {
    k in w.accounts && w.accounts[k].alias != "" && w.accounts[k].alias == alias && ParseIndex(k).Some?
  }

  /** indexForRef. */
  ghost function IndexFor(w: Wallet, ref: Ref): (r: Option<nat>)
    ensures r.Some? ==> Itoa(r.value) in w.accounts
  {
    match ref
    case HDIndex(_, index) => if Itoa(index) in w.accounts then Some(index) else None
    case HDAlias(_, alias) =>
      if exists k :: HasAlias(w, k, alias) then
        var k :| HasAlias(w, k, alias);
        CanonicalNumeral(k);
        ParseIndex(k)
      else None
    case _ => None
  }

  /** findByAddress. */
  ghost predicate AddressExists(m: Meta, address: string) {
    || (exists id, k | id in m.wallets && k in m.wallets[id].accounts :: m.wallets[id].accounts[k].address == address)
    || (exists id | id in m.accounts :: m.accounts[id].address == address)
  }

  function IndexOf(k: string): nat {
    if ParseIndex(k).Some? then ParseIndex(k).value else 0
  }

  predicate AliasInUse(w: Wallet, alias: string, self: nat) {
    exists k | k in w.accounts :: IndexOf(k) != self && w.accounts[k].alias == alias
  }

  function PathRef(wallet: string, key: string): string {
    wallet + (['/'] + key)
  }

  /** refIsDefault, for an HD account. */
  predicate IsDefault(m: Meta, w: Wallet, key: string)
    requires key in w.accounts
  {
    && m.chosen != ""
    && (m.chosen == PathRef(w.name, key)
        || (w.accounts[key].alias != "" && m.chosen == PathRef(w.name, w.accounts[key].alias)))
  }

  /** defaultPointsToWallet. */
  predicate PointsTo(chosen: string, name: string) {
    Find(chosen, '/') < |chosen| && chosen[..Find(chosen, '/')] == name
  }

  /** Where a reference leads. */
  datatype Place = InWallet(id: string, index: nat) | Alone(id: string)

  /** resolveInfo. */
  ghost function Resolve(m: Meta, ref: Ref): (r: Result<Place>)
    ensures r.Ok? && r.value.InWallet? ==>
      r.value.id in m.wallets && Itoa(r.value.index) in m.wallets[r.value.id].accounts
    ensures r.Ok? && r.value.Alone? ==> r.value.id in m.accounts
  {
    if ref.HDIndex? || ref.HDAlias? then
      var id := WalletNamed(m, ref.wallet);
      if id.None? then Err(NotFound)
      else
        var index := IndexFor(m.wallets[id.value], ref);
        if index.None? then Err(NotFound) else Ok(InWallet(id.value, index.value))
    else if ref.Named? then
      var id := StandaloneNamed(m, ref.name);
      if id.None? then Err(NotFound) else Ok(Alone(id.value))
    else Err(ReadOnlyContext)
  }

  /** The text SetDefault stores for a resolved reference. */
  function Canonical(m: Meta, p: Place): string
    requires p.InWallet? ==> p.id in m.wallets
    requires p.Alone? ==> p.id in m.accounts
  {
    match p
    case InWallet(id, index) => PathRef(m.wallets[id].name, Itoa(index))
    case Alone(id) => m.accounts[id].name
  }

  function AddressAt(m: Meta, p: Place): string
    requires p.InWallet? ==> p.id in m.wallets && Itoa(p.index) in m.wallets[p.id].accounts
    requires p.Alone? ==> p.id in m.accounts
  {
    match p
    case InWallet(id, index) => m.wallets[id].accounts[Itoa(index)].address
    case Alone(id) => m.accounts[id].address
  }

  /** LookupSigning: a bare wallet name is no signing identity. */
  ghost function LookupSigning(m: Meta, ref: Ref): Result<Place> {
    if ref.Address? || ref.ENS? then Err(ReadOnlyContext)
    else if ref.Named? && WalletNamed(m, ref.name).Some? then Err(NotFound)
    else Resolve(m, ref)
  }

  /** AddressOf: a raw address stands for itself. */
  ghost function AddressOf(m: Meta, ref: Ref): Result<string> {
    if ref.Address? then Ok(ref.hex)
    else
      var p := Resolve(m, ref);
      if p.Err? then Err(p.error) else Ok(AddressAt(m, p.value))
  }

  // --- the mutations ---

  function WithWallet(m: Meta, id: string, w: Wallet): Meta {
    m.(wallets := m.wallets[id := w])
  }

  /** CreateWallet and ImportWallet: `id` is the new UUID, `address0` the derivation of index 0. */
  ghost function Created(m: Meta, name: string, id: string, address0: Option<string>): Outcome<string> {
    if !ValidName(name) then Refused(InvalidName)
    else if NameExists(m, name, None) then Refused(Collision)
    else if address0.None? then Refused(Derivation)
    else Done(WithWallet(m, id, Wallet(name, 1, map[Itoa(0) := HDAccount(address0.value, "")])), id)
  }

  ghost function Renamed(m: Meta, oldName: string, newName: string): Outcome<string> {
    var id := WalletNamed(m, oldName);
    if !ValidName(newName) then Refused(InvalidName)
    else if id.None? then Refused(NotFound)
    else if NameExists(m, newName, id) then Refused(Collision)
    else Done(WithWallet(m, id.value, m.wallets[id.value].(name := newName)), id.value)
  }

  ghost function WalletDeleted(m: Meta, name: string): Outcome<string> {
    var id := WalletNamed(m, name);
    if id.None? then Refused(NotFound)
    else
      var chosen := if PointsTo(m.chosen, m.wallets[id.value].name) then "" else m.chosen;
      Done(m.(chosen := chosen, wallets := m.wallets - {id.value}), id.value)
  }

  function Materialized(w: Wallet, index: nat, address: string, next: uint32): Wallet {
    w.(accounts := w.accounts[Itoa(index) := HDAccount(address, "")], next := next)
  }

  /** n + 1 in uint32 arithmetic. */
  function Successor(n: uint32): uint32 {
    if n == MAX_UINT32 then 0 else n + 1
  }

  /** DeriveNext. */
  ghost function NextDerived(m: Meta, name: string, derived: Option<string>): Outcome<(nat, string)> {
    var id := WalletNamed(m, name);
    if id.None? then Refused(NotFound)
    else if derived.None? then Refused(Derivation)
    else
      var w := m.wallets[id.value];
      Done(WithWallet(m, id.value, Materialized(w, w.next, derived.value, Successor(w.next))),
           (w.next, derived.value))
  }

  ghost function IndexDerived(m: Meta, name: string, index: nat, derived: Option<string>): Outcome<string> {
    var id := WalletNamed(m, name);
    if index >= HARDENED then Refused(BadIndex)
    else if id.None? then Refused(NotFound)
    else if Itoa(index) in m.wallets[id.value].accounts then Unchanged(m.wallets[id.value].accounts[Itoa(index)].address)
    else if derived.None? then Refused(Derivation)
    else
      var w := m.wallets[id.value];
      var next := if index >= w.next then index + 1 else w.next;
      Done(WithWallet(m, id.value, Materialized(w, index, derived.value, next)), derived.value)
  }

  function WithAlias(w: Wallet, index: nat, alias: string): Wallet
    requires Itoa(index) in w.accounts
  {
    w.(accounts := w.accounts[Itoa(index) := w.accounts[Itoa(index)].(alias := alias)])
  }

  ghost function Aliased(m: Meta, name: string, index: nat, alias: string): Outcome<()> {
    var id := WalletNamed(m, name);
    if !ValidAlias(alias) then Refused(InvalidName)
    else if id.None? || Itoa(index) !in m.wallets[id.value].accounts then Refused(NotFound)
    else if AliasInUse(m.wallets[id.value], alias, index) then Refused(Collision)
    else Done(WithWallet(m, id.value, WithAlias(m.wallets[id.value], index, alias)), ())
  }

  ghost function Unaliased(m: Meta, name: string, index: nat): Outcome<string> {
    var id := WalletNamed(m, name);
    if id.None? || Itoa(index) !in m.wallets[id.value].accounts
      || m.wallets[id.value].accounts[Itoa(index)].alias == "" then Refused(NotFound)
    else
      var w := m.wallets[id.value];
      Done(WithWallet(m, id.value, WithAlias(w, index, "")), w.accounts[Itoa(index)].alias)
  }

  /** ImportStandalone: `address` is that of the key, None if the key is out of range. */
  ghost function Imported(m: Meta, name: string, id: string, address: Option<string>): Outcome<string> {
    if !ValidName(name) then Refused(InvalidName)
    else if NameExists(m, name, None) then Refused(Collision)
    else if address.None? then Refused(BadKey)
    else if AddressExists(m, address.value) then Refused(Collision)
    else Done(m.(accounts := m.accounts[id := Standalone(name, address.value)]), id)
  }

  ghost function Deleted(m: Meta, ref: Ref): Outcome<Place> {
    var p := Resolve(m, ref);
    if p.Err? then Refused(p.error)
    else
      match p.value
      case InWallet(id, index) =>
        var w := m.wallets[id];
        var chosen := if IsDefault(m, w, Itoa(index)) then "" else m.chosen;
        Done(WithWallet(m.(chosen := chosen), id, w.(accounts := w.accounts - {Itoa(index)})), p.value)
      case Alone(id) =>
        var chosen := if m.chosen == m.accounts[id].name then "" else m.chosen;
        Done(m.(chosen := chosen, accounts := m.accounts - {id}), p.value)
  }

  ghost function DefaultSet(m: Meta, ref: Ref): Outcome<()> {
    var p := Resolve(m, ref);
    if p.Err? then Refused(p.error) else Done(m.(chosen := Canonical(m, p.value)), ())
  }

  // --- what every operation keeps ---

  /** Names are valid and no two objects share one. */
  ghost predicate NamesOk(m: Meta) {
    && (forall id | id in m.wallets :: ValidName(m.wallets[id].name))
    && (forall id | id in m.accounts :: ValidName(m.accounts[id].name))
    && (forall i, j | i in m.wallets && j in m.wallets && i != j :: m.wallets[i].name != m.wallets[j].name)
    && (forall i, j | i in m.accounts && j in m.accounts && i != j :: m.accounts[i].name != m.accounts[j].name)
    && (forall i, j | i in m.wallets && j in m.accounts :: m.wallets[i].name != m.accounts[j].name)
  }

  /** The watermark is above every materialized index, keys are canonical, aliases valid and unique. */
  ghost predicate WalletOk(w: Wallet) {
    && (forall k | k in w.accounts :: ParseIndex(k).Some? && ParseIndex(k).value < w.next)
    && (forall k | k in w.accounts :: w.accounts[k].alias == "" || ValidAlias(w.accounts[k].alias))
    && (forall k, l | k in w.accounts && l in w.accounts && k != l ::
          w.accounts[k].alias == "" || w.accounts[k].alias != w.accounts[l].alias)
  }

  ghost predicate Valid(m: Meta) {
    NamesOk(m) && forall id | id in m.wallets :: WalletOk(m.wallets[id])
  }

  predicate Names(m: Meta, p: Place) {
    match p
    case InWallet(id, index) =>
      id in m.wallets && Itoa(index) in m.wallets[id].accounts && m.chosen == PathRef(m.wallets[id].name, Itoa(index))
    case Alone(id) => id in m.accounts && m.chosen == m.accounts[id].name
  }

  /** The stored default, if any, names an existing account. */
  ghost predicate DefaultOk(m: Meta) {
    m.chosen == "" || exists p :: Names(m, p)
  }

  // --- lookups have one answer ---

  lemma OneWallet(m: Meta, name: string, i: string, j: string)
    requires NamesOk(m) && IsWallet(m, i, name) && IsWallet(m, j, name)
    ensures i == j
  {
    NameIsPlain(m.wallets[i].name);
    NameIsPlain(m.wallets[j].name);
  }

  lemma OneStandalone(m: Meta, name: string, i: string, j: string)
    requires NamesOk(m) && IsStandalone(m, i, name) && IsStandalone(m, j, name)
    ensures i == j
  {
    NameIsPlain(m.accounts[i].name);
    NameIsPlain(m.accounts[j].name);
  }

  lemma OneNamespace(m: Meta, name: string, i: string, j: string)
    requires NamesOk(m) && IsWallet(m, i, name)
    ensures !IsStandalone(m, j, name)
  {
    NameIsPlain(m.wallets[i].name);
    if j in m.accounts {
      NameIsPlain(m.accounts[j].name);
    }
  }

  lemma OneAlias(w: Wallet, alias: string, k: string, l: string)
    requires WalletOk(w) && HasAlias(w, k, alias) && HasAlias(w, l, alias)
    ensures k == l
  {}

  /** The lookups that range over maps can each return only one thing, and a name is a wallet's or a standalone
      account's, never both. */
  lemma LookupsAreDeterministic(m: Meta, name: string, i: string, j: string)
    requires Valid(m)
    ensures IsWallet(m, i, name) ==> WalletNamed(m, name) == Some(i)
    ensures IsStandalone(m, i, name) ==> StandaloneNamed(m, name) == Some(i)
    ensures !(IsWallet(m, i, name) && IsStandalone(m, j, name))
  {
    if IsWallet(m, i, name) {
      OneWallet(m, name, i, WalletNamed(m, name).value);
      OneNamespace(m, name, i, j);
    }
    if IsStandalone(m, i, name) {
      OneStandalone(m, name, i, StandaloneNamed(m, name).value);
    }
  }

  lemma AliasIndex(w: Wallet, ref: Ref, k: string)
    requires WalletOk(w) && ref.HDAlias? && HasAlias(w, k, ref.alias)
    ensures IndexFor(w, ref) == ParseIndex(k)
  {
    var l :| HasAlias(w, l, ref.alias) && IndexFor(w, ref) == ParseIndex(l);
    OneAlias(w, ref.alias, k, l);
  }

  /** The signing lookup and the address lookup agree on everything either can sign for, though they test a bare
      name in different orders. */
  lemma SigningAgreesWithAddress(m: Meta, ref: Ref)
    requires Valid(m) && !ref.Address?
    ensures LookupSigning(m, ref).Ok? <==> AddressOf(m, ref).Ok?
    ensures LookupSigning(m, ref).Ok? ==> AddressOf(m, ref) == Ok(AddressAt(m, Resolve(m, ref).value))
  {
    if ref.Named? && WalletNamed(m, ref.name).Some? && StandaloneNamed(m, ref.name).Some? {
      OneNamespace(m, ref.name, WalletNamed(m, ref.name).value, StandaloneNamed(m, ref.name).value);
    }
  }

  // --- the stored default ---

  lemma KeyOf(w: Wallet, k: string)
    requires WalletOk(w) && k in w.accounts
    ensures Itoa(ParseIndex(k).value) == k
  {
    CanonicalNumeral(k);
  }

  lemma IndexOfKey(w: Wallet, index: nat)
    requires WalletOk(w) && Itoa(index) in w.accounts
    ensures index < w.next <= MAX_UINT32 && ParseIndex(Itoa(index)) == Some(index)
  {}

  lemma NameFinds(m: Meta, id: string)
    requires Valid(m) && id in m.wallets
    ensures WalletNamed(m, m.wallets[id].name) == Some(id)
  {
    LookupsAreDeterministic(m, m.wallets[id].name, id, id);
  }

  /** What SetDefault stores reads back as a reference to the very account it resolved: always for an HD account,
      and for a standalone one exactly when its name does not begin with 0x. */
  lemma StoredDefaultReadsBack(m: Meta, ref: Ref)
    requires Valid(m) && Resolve(m, ref).Ok?
    ensures var p := Resolve(m, ref).value; var text := Canonical(m, p);
      && (p.InWallet? ==> ParseAccountRef(text) == Parsed.Ref(HDIndex(m.wallets[p.id].name, p.index))
                          && Resolve(m, HDIndex(m.wallets[p.id].name, p.index)) == Ok(p))
      && (p.Alone? ==> Resolve(m, Named(text)) == Ok(p)
                       && (ParseAccountRef(text) == Parsed.Ref(Named(text)) <==> !Has0x(text)))
  {
    var p := Resolve(m, ref).value;
    if p.InWallet? { PathReadsBack(m, p.id, p.index); } else { AloneReadsBack(m, p.id); }
  }

  lemma PathReadsBack(m: Meta, id: string, index: nat)
    requires Valid(m) && id in m.wallets && Itoa(index) in m.wallets[id].accounts
    ensures var name := m.wallets[id].name;
      && ParseAccountRef(PathRef(name, Itoa(index))) == Parsed.Ref(HDIndex(name, index))
      && Resolve(m, HDIndex(name, index)) == Ok(InWallet(id, index))
  {
    assert WalletOk(m.wallets[id]) && ValidName(m.wallets[id].name);
    IndexOfKey(m.wallets[id], index);
    IndexRefReadsBack(m.wallets[id].name, index);
    NameFinds(m, id);
  }

  lemma AloneReadsBack(m: Meta, id: string)
    requires Valid(m) && id in m.accounts
    ensures var name := m.accounts[id].name;
      && Resolve(m, Named(name)) == Ok(Alone(id))
      && (ParseAccountRef(name) == Parsed.Ref(Named(name)) <==> !Has0x(name))
  {
    NameReadsBackIff(m.accounts[id].name);
    LookupsAreDeterministic(m, m.accounts[id].name, id, id);
  }

  /** Lookups fold case, and a 0x prefix is one in either case. */
  lemma PrefixUpToCase(s: string, t: string)
    requires ToLower(s) == ToLower(t) && Has0x(s)
    ensures Has0x(t)
  {
    assert |t| == |s|;
    assert LowerChar(t[0]) == ToLower(t)[0] == ToLower(s)[0] == '0';
    assert LowerChar(t[1]) == ToLower(t)[1] == ToLower(s)[1] == 'x';
  }

  /** The parser never makes a name of a text beginning with 0x. */
  lemma NamedHasNoPrefix(raw: string)
    requires ParseAccountRef(raw).Ref? && ParseAccountRef(raw).ref.Named?
    ensures !Has0x(ParseAccountRef(raw).ref.name)
  {}

  /** Some text refers to a standalone account exactly when its name does not begin with 0x: such a name, which
      validName admits, is out of reach for every reference. */
  lemma ReachableIff(m: Meta, id: string)
    requires Valid(m) && id in m.accounts
    ensures !Has0x(m.accounts[id].name) <==>
      exists raw :: ParseAccountRef(raw).Ref? && Resolve(m, ParseAccountRef(raw).ref) == Ok(Alone(id))
  {
    var name := m.accounts[id].name;
    if !Has0x(name) {
      AloneReadsBack(m, id);
      assert Resolve(m, ParseAccountRef(name).ref) == Ok(Alone(id));
    }
    forall raw | ParseAccountRef(raw).Ref? && Resolve(m, ParseAccountRef(raw).ref) == Ok(Alone(id))
      ensures !Has0x(name)
    {
      var ref := ParseAccountRef(raw).ref;
      assert IsStandalone(m, id, ref.name);
      NamedHasNoPrefix(raw);
      if Has0x(name) {
        PrefixUpToCase(name, ref.name);
      }
    }
  }

  lemma SetDefaultNamesAccount(m: Meta, ref: Ref)
    requires DefaultSet(m, ref).Done?
    ensures DefaultOk(DefaultSet(m, ref).meta)
  {
    assert Names(DefaultSet(m, ref).meta, Resolve(m, ref).value);
  }

  // --- every operation keeps the metadata valid ---

  lemma WithWalletValid(m: Meta, id: string, w: Wallet)
    requires Valid(m) && id in m.wallets && w.name == m.wallets[id].name && WalletOk(w)
    ensures Valid(WithWallet(m, id, w))
  {}

  lemma CreatedValid(m: Meta, name: string, id: string, address0: Option<string>)
    requires Valid(m) && id !in m.wallets && Created(m, name, id, address0).Done?
    ensures Valid(Created(m, name, id, address0).meta)
  {
    NewName(m, name);
    FirstAccount(name, address0.value);
    AddWallet(m, id, Wallet(name, 1, map[Itoa(0) := HDAccount(address0.value, "")]));
  }

  lemma FirstAccount(name: string, address: string)
    ensures WalletOk(Wallet(name, 1, map[Itoa(0) := HDAccount(address, "")]))
  {
    IndexKeyIff(Itoa(0), 0);
  }

  lemma AddWallet(m: Meta, id: string, w: Wallet)
    requires Valid(m) && id !in m.wallets && WalletOk(w) && ValidName(w.name)
    requires forall j | j in m.wallets :: m.wallets[j].name != w.name
    requires forall j | j in m.accounts :: m.accounts[j].name != w.name
    ensures Valid(WithWallet(m, id, w))
  {}

  /** A name that passes nameExists is held by nobody. */
  lemma NewName(m: Meta, name: string)
    requires NamesOk(m) && ValidName(name) && !NameExists(m, name, None)
    ensures forall id | id in m.wallets :: m.wallets[id].name != name
    ensures forall id | id in m.accounts :: m.accounts[id].name != name
  {
    forall id | id in m.wallets
      ensures m.wallets[id].name != name
    {
      assert !(IsWallet(m, id, name) && None != Some(id));
    }
    forall id | id in m.accounts
      ensures m.accounts[id].name != name
    {
      assert !(IsStandalone(m, id, name) && None != Some(id));
    }
  }

  lemma RenamedValid(m: Meta, oldName: string, newName: string)
    requires Valid(m) && m.wallets.Keys !! m.accounts.Keys && Renamed(m, oldName, newName).Done?
    ensures Valid(Renamed(m, oldName, newName).meta)
  {
    NameChanged(m, WalletNamed(m, oldName).value, newName);
  }

  lemma NameChanged(m: Meta, id: string, name: string)
    requires Valid(m) && id in m.wallets && id !in m.accounts && ValidName(name) && !NameExists(m, name, Some(id))
    ensures Valid(WithWallet(m, id, m.wallets[id].(name := name)))
  {
    forall j | j in m.wallets && j != id
      ensures m.wallets[j].name != name
    {
      assert !(IsWallet(m, j, name) && Some(id) != Some(j));
    }
    forall j | j in m.accounts
      ensures m.accounts[j].name != name
    {
      assert !(IsStandalone(m, j, name) && Some(id) != Some(j));
    }
    var m' := WithWallet(m, id, m.wallets[id].(name := name));
    assert NamesOk(m');
  }

  lemma MaterializedOk(w: Wallet, index: nat, address: string, next: uint32)
    requires WalletOk(w) && index < next && w.next <= next
    ensures WalletOk(Materialized(w, index, address, next))
  {
    IndexKeyIff(Itoa(index), index);
  }

  /** DeriveNext keeps the metadata valid exactly until the watermark wraps around. */
  lemma NextDerivedValidIff(m: Meta, name: string, derived: Option<string>)
    requires Valid(m) && NextDerived(m, name, derived).Done?
    ensures Valid(NextDerived(m, name, derived).meta) <==> NextDerived(m, name, derived).value.0 < MAX_UINT32
  {
    var id := WalletNamed(m, name).value;
    WatermarkStep(m, id, m.wallets[id], derived.value);
  }

  lemma WatermarkStep(m: Meta, id: string, w: Wallet, address: string)
    requires Valid(m) && id in m.wallets && m.wallets[id] == w
    ensures Valid(WithWallet(m, id, Materialized(w, w.next, address, Successor(w.next)))) <==> w.next < MAX_UINT32
  {
    var next := Successor(w.next);
    if w.next < MAX_UINT32 {
      assert next == w.next + 1;
      MaterializedOk(w, w.next, address, next);
      WithWalletValid(m, id, Materialized(w, w.next, address, next));
    } else {
      assert next == 0;
      WrappedInvalid(w, address);
      InvalidWallet(m, id, Materialized(w, w.next, address, next));
    }
  }

  lemma InvalidWallet(m: Meta, id: string, w: Wallet)
    requires !WalletOk(w)
    ensures !Valid(WithWallet(m, id, w))
  {
    assert WithWallet(m, id, w).wallets[id] == w;
  }

  lemma WrappedInvalid(w: Wallet, address: string)
    requires w.next == MAX_UINT32
    ensures !WalletOk(Materialized(w, w.next, address, 0))
  {
    IndexKeyIff(Itoa(w.next), w.next);
    assert Itoa(w.next) in Materialized(w, w.next, address, 0).accounts;
  }

  lemma IndexDerivedValid(m: Meta, name: string, index: nat, derived: Option<string>)
    requires Valid(m) && IndexDerived(m, name, index, derived).Done?
    ensures Valid(IndexDerived(m, name, index, derived).meta)
  {
    var id := WalletNamed(m, name).value;
    var w := m.wallets[id];
    var next := if index >= w.next then index + 1 else w.next;
    MaterializedOk(w, index, derived.value, next);
    WithWalletValid(m, id, Materialized(w, index, derived.value, next));
  }

  lemma AliasedValid(m: Meta, name: string, index: nat, alias: string)
    requires Valid(m) && Aliased(m, name, index, alias).Done?
    ensures Valid(Aliased(m, name, index, alias).meta)
  {
    var id := WalletNamed(m, name).value;
    var w := m.wallets[id];
    forall k | k in w.accounts && k != Itoa(index)
      ensures w.accounts[k].alias != alias
    {
      KeyOf(w, k);
      assert IndexOf(k) != index;
    }
    WithWalletValid(m, id, WithAlias(w, index, alias));
  }

  lemma UnaliasedValid(m: Meta, name: string, index: nat)
    requires Valid(m) && Unaliased(m, name, index).Done?
    ensures Valid(Unaliased(m, name, index).meta)
  {
    var id := WalletNamed(m, name).value;
    WithWalletValid(m, id, WithAlias(m.wallets[id], index, ""));
  }

  lemma ImportedValid(m: Meta, name: string, id: string, address: Option<string>)
    requires Valid(m) && id !in m.accounts && Imported(m, name, id, address).Done?
    ensures Valid(Imported(m, name, id, address).meta)
  {
    NewName(m, name);
  }

  lemma DeletedValid(m: Meta, ref: Ref)
    requires Valid(m) && Deleted(m, ref).Done?
    ensures Valid(Deleted(m, ref).meta)
  {
    var p := Resolve(m, ref).value;
    if p.InWallet? {
      var w := m.wallets[p.id];
      assert WalletOk(w.(accounts := w.accounts - {Itoa(p.index)}));
    }
  }

  // --- the default survives, except a rename ---

  lemma PathPointsTo(name: string, key: string)
    requires ValidName(name)
    ensures PointsTo(PathRef(name, key), name)
    ensures forall other :: PointsTo(PathRef(name, key), other) ==> other == name
  {
    NameIsPlain(name);
    SplitAtSlash(name, key);
  }

  lemma NamePointsNowhere(name: string, other: string)
    requires ValidName(name)
    ensures !PointsTo(name, other)
  {
    NameIsPlain(name);
    assert forall k | 0 <= k < |name| :: name[k] in name;
  }

  lemma SamePath(name: string, key: string, name': string, key': string)
    requires ValidName(name) && ValidName(name') && PathRef(name, key) == PathRef(name', key')
    ensures name == name' && key == key'
  {
    NameIsPlain(name);
    NameIsPlain(name');
    SplitAtSlash(name, key);
    SplitAtSlash(name', key');
  }

  /** If the place the default names is untouched, the default stays good. */
  lemma KeepsDefault(m: Meta, m': Meta, p: Place)
    requires Names(m, p) && m'.chosen == m.chosen
    requires p.InWallet? ==> p.id in m'.wallets && m'.wallets[p.id].name == m.wallets[p.id].name
                             && Itoa(p.index) in m'.wallets[p.id].accounts
    requires p.Alone? ==> p.id in m'.accounts && m'.accounts[p.id].name == m.accounts[p.id].name
    ensures DefaultOk(m')
  {
    assert Names(m', p);
  }

  /** A mutation that keeps every wallet's name, every account and the default keeps a good default good. */
  ghost predicate Grows(m: Meta, m': Meta) {
    && m'.chosen == m.chosen
    && (forall id | id in m.wallets :: id in m'.wallets && m'.wallets[id].name == m.wallets[id].name
                                       && m.wallets[id].accounts.Keys <= m'.wallets[id].accounts.Keys)
    && (forall id | id in m.accounts :: id in m'.accounts && m'.accounts[id] == m.accounts[id])
  }

  lemma GrowsKeepsDefault(m: Meta, m': Meta)
    requires DefaultOk(m) && Grows(m, m')
    ensures DefaultOk(m')
  {
    if m.chosen != "" {
      var p :| Names(m, p);
      KeepsDefault(m, m', p);
    }
  }

  lemma WalletDeletedKeepsDefault(m: Meta, name: string)
    requires Valid(m) && DefaultOk(m) && WalletDeleted(m, name).Done?
    ensures DefaultOk(WalletDeleted(m, name).meta)
  {
    var m' := WalletDeleted(m, name).meta;
    if m'.chosen != "" {
      var p :| Names(m, p);
      if p.InWallet? {
        PathPointsTo(m.wallets[p.id].name, Itoa(p.index));
      }
      KeepsDefault(m, m', p);
    }
  }

  lemma DeletedKeepsDefault(m: Meta, ref: Ref)
    requires Valid(m) && DefaultOk(m) && Deleted(m, ref).Done?
    ensures DefaultOk(Deleted(m, ref).meta)
  {
    if Deleted(m, ref).meta.chosen != "" {
      var p :| Names(m, p);
      OtherPlaceStays(m, ref, p);
    }
  }

  lemma OtherPlaceStays(m: Meta, ref: Ref, p: Place)
    requires Deleted(m, ref).Done? && Deleted(m, ref).meta.chosen != "" && Names(m, p)
    ensures DefaultOk(Deleted(m, ref).meta)
  {
    var q := Resolve(m, ref).value;
    assert p != q;
    if p.InWallet? && q.InWallet? && p.id == q.id {
      assert Itoa(p.index) != Itoa(q.index);
    }
    KeepsDefault(m, Deleted(m, ref).meta, p);
  }

  /** RenameWallet leaves the stored default alone, so it keeps it good exactly when the default does not point
      into the renamed wallet, or the name does not change. */
  lemma RenameKeepsDefaultIff(m: Meta, oldName: string, newName: string)
    requires Valid(m) && DefaultOk(m) && Renamed(m, oldName, newName).Done?
    ensures var w := m.wallets[WalletNamed(m, oldName).value];
      DefaultOk(Renamed(m, oldName, newName).meta) <==> !PointsTo(m.chosen, w.name) || newName == w.name
  {
    var id := WalletNamed(m, oldName).value;
    var w := m.wallets[id];
    var m' := Renamed(m, oldName, newName).meta;
    if m.chosen != "" {
      var p :| Names(m, p);
      if p.InWallet? {
        PathPointsTo(m.wallets[p.id].name, Itoa(p.index));
      } else {
        NamePointsNowhere(m.accounts[p.id].name, w.name);
      }
      if !PointsTo(m.chosen, w.name) || newName == w.name {
        KeepsDefault(m, m', p);
      } else {
        DanglingAfterRename(m, id, newName, p);
      }
    }
  }

  lemma DanglingAfterRename(m: Meta, id: string, newName: string, p: Place)
    requires Valid(m) && id in m.wallets && newName != m.wallets[id].name && ValidName(newName)
    requires Names(m, p) && p.InWallet? && p.id == id
    ensures !DefaultOk(WithWallet(m, id, m.wallets[id].(name := newName)))
  {
    var m' := WithWallet(m, id, m.wallets[id].(name := newName));
    var name := m.wallets[id].name;
    assert m.chosen == PathRef(name, Itoa(p.index));
    assert |m.chosen| > 0;
    forall q
      ensures !Names(m', q)
    {
      if Names(m', q) {
        if q.InWallet? {
          SamePath(name, Itoa(p.index), m'.wallets[q.id].name, Itoa(q.index));
        } else {
          PathPointsTo(name, Itoa(p.index));
          NamePointsNowhere(m.accounts[q.id].name, name);
        }
      }
    }
  }
}
