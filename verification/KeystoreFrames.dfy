/** What each keystore operation does to everything one can observe, and when it is refused. */
module KeystoreFrames {
  import opened Text
  import opened AccountRef
  import opened Keystore

  /** What shows at a place: the name it is reached by, the address and the alias. */
  datatype View = View(name: string, address: string, alias: string)

  function ViewAt(m: Meta, p: Place): Option<View> {
    match p
    case InWallet(id, index) =>
      if id in m.wallets && Itoa(index) in m.wallets[id].accounts then
        var a := m.wallets[id].accounts[Itoa(index)];
        Some(View(m.wallets[id].name, a.address, a.alias))
      else None
    case Alone(id) =>
      if id in m.accounts then Some(View(m.accounts[id].name, m.accounts[id].address, "")) else None
  }

  /** A wallet's name and watermark. */
  function WalletAt(m: Meta, id: string): Option<(string, uint32)> {
    if id in m.wallets then Some((m.wallets[id].name, m.wallets[id].next)) else None
  }

  /** Nothing shows differently but at `p`, where `v` shows now; watermarks and wallet names but that of `id` stay. */
  ghost predicate OnlyAt(m: Meta, m': Meta, p: Place, v: Option<View>) {
    forall q :: ViewAt(m', q) == if q == p then v else ViewAt(m, q)
  }

  ghost predicate OnlyWallet(m: Meta, m': Meta, id: string, w: Option<(string, uint32)>) {
    forall j :: WalletAt(m', j) == if j == id then w else WalletAt(m, j)
  }

  ghost predicate SameWallets(m: Meta, m': Meta) {
    forall j :: WalletAt(m', j) == WalletAt(m, j)
  }

  /** Some wallet or account other than wallet `but` holds the name. */
  ghost predicate Held(m: Meta, name: string, but: Option<string>) {
    || (exists id :: WalletAt(m, id).Some? && WalletAt(m, id).value.0 == name && but != Some(id))
    || (exists id :: ViewAt(m, Alone(id)).Some? && ViewAt(m, Alone(id)).value.name == name)
  }

  // --- lookups, by what shows ---

  /** A name finds the wallet that holds it in lower case. */
  lemma WalletFoundIff(m: Meta, name: string, id: string)
    requires Valid(m)
    ensures WalletNamed(m, name) == Some(id) <==> WalletAt(m, id).Some? && WalletAt(m, id).value.0 == ToLower(name)
  {
    if id in m.wallets {
      NameIsPlain(m.wallets[id].name);
      LookupsAreDeterministic(m, name, id, id);
    }
  }

  lemma StandaloneFoundIff(m: Meta, name: string, id: string)
    requires Valid(m)
    ensures StandaloneNamed(m, name) == Some(id)
      <==> ViewAt(m, Alone(id)).Some? && ViewAt(m, Alone(id)).value.name == ToLower(name)
  {
    if id in m.accounts {
      NameIsPlain(m.accounts[id].name);
      LookupsAreDeterministic(m, name, id, id);
    }
  }

  /** A reference means the place that shows its wallet in lower case with its index or its very alias, or the
      account with its name in lower case. */
  predicate Meets(m: Meta, ref: Ref, p: Place) {
    && ViewAt(m, p).Some?
    && var v := ViewAt(m, p).value;
       match ref
       case HDIndex(wallet, index) => p.InWallet? && v.name == ToLower(wallet) && p.index == index
       case HDAlias(wallet, alias) => p.InWallet? && v.name == ToLower(wallet) && v.alias == alias && alias != ""
       case Named(name) => p.Alone? && v.name == ToLower(name)
       case _ => false
  }

  /** A reference resolves to a place if and only if it means it; raw addresses and ENS names are refused, and
      whatever else means no place is not found. */
  lemma ResolveIff(m: Meta, ref: Ref, p: Place)
    requires Valid(m)
    ensures Resolve(m, ref) == Ok(p) <==> Meets(m, ref, p)
    ensures Resolve(m, ref) == Err(ReadOnlyContext) <==> ref.Address? || ref.ENS?
    ensures Resolve(m, ref).Err? ==> Resolve(m, ref).error == NotFound || ref.Address? || ref.ENS?
  {
    match ref
    case HDIndex(wallet, index) => if p.InWallet? { WalletFoundIff(m, wallet, p.id); }
    case HDAlias(wallet, alias) => if p.InWallet? { AliasFoundIff(m, ref, p.id, p.index); }
    case Named(name) => if p.Alone? { StandaloneFoundIff(m, name, p.id); }
    case _ =>
  }

  lemma AliasFoundIff(m: Meta, ref: Ref, id: string, index: nat)
    requires Valid(m) && ref.HDAlias?
    ensures Resolve(m, ref) == Ok(InWallet(id, index)) <==> Meets(m, ref, InWallet(id, index))
  {
    WalletFoundIff(m, ref.wallet, id);
    if id in m.wallets {
      IndexForIff(m.wallets[id], ref, index);
    }
  }

  lemma IndexForIff(w: Wallet, ref: Ref, index: nat)
    requires WalletOk(w) && ref.HDAlias?
    ensures IndexFor(w, ref) == Some(index)
      <==> Itoa(index) in w.accounts && w.accounts[Itoa(index)].alias == ref.alias && ref.alias != ""
  {
    if Itoa(index) in w.accounts {
      IndexOfKey(w, index);
      if w.accounts[Itoa(index)].alias == ref.alias && ref.alias != "" {
        AliasIndex(w, ref, Itoa(index));
      }
    }
    if IndexFor(w, ref) == Some(index) {
      var k :| HasAlias(w, k, ref.alias) && IndexFor(w, ref) == ParseIndex(k);
      KeyOf(w, k);
    }
  }

  /** Two references that mean the same places resolve alike. */
  lemma SameMeaning(m: Meta, ref: Ref, m': Meta, ref': Ref)
    requires Valid(m) && Valid(m') && (ref.Address? || ref.ENS? <==> ref'.Address? || ref'.ENS?)
    requires forall p :: Meets(m, ref, p) <==> Meets(m', ref', p)
    ensures Resolve(m, ref) == Resolve(m', ref')
  {
    var r, r' := Resolve(m, ref), Resolve(m', ref');
    var p := if r.Ok? then r.value else if r'.Ok? then r'.value else Alone("");
    ResolveIff(m, ref, p);
    ResolveIff(m', ref', p);
  }

  /** Lookups fold the case of wallet and account names, and of nothing else. */
  lemma CaseDoesNotMatter(m: Meta, name: string, name': string, index: nat, alias: string)
    requires Valid(m) && ToLower(name) == ToLower(name')
    ensures Resolve(m, HDIndex(name, index)) == Resolve(m, HDIndex(name', index))
    ensures Resolve(m, HDAlias(name, alias)) == Resolve(m, HDAlias(name', alias))
    ensures Resolve(m, Named(name)) == Resolve(m, Named(name'))
  {
    SameMeaning(m, HDIndex(name, index), m, HDIndex(name', index));
    SameMeaning(m, HDAlias(name, alias), m, HDAlias(name', alias));
    SameMeaning(m, Named(name), m, Named(name'));
  }

  lemma HeldIff(m: Meta, name: string, but: Option<string>)
    requires Valid(m) && ValidName(name) && (but.Some? ==> but.value !in m.accounts)
    ensures NameExists(m, name, but) <==> Held(m, name, but)
  {
    NameIsPlain(name);
    if NameExists(m, name, but) {
      if id :| IsWallet(m, id, name) && but != Some(id) {
        NameIsPlain(m.wallets[id].name);
        assert WalletAt(m, id).Some? && WalletAt(m, id).value.0 == name;
      } else {
        var id :| IsStandalone(m, id, name) && but != Some(id);
        NameIsPlain(m.accounts[id].name);
        assert ViewAt(m, Alone(id)).Some? && ViewAt(m, Alone(id)).value.name == name;
      }
    }
    if Held(m, name, but) {
      if id :| WalletAt(m, id).Some? && WalletAt(m, id).value.0 == name && but != Some(id) {
        assert IsWallet(m, id, name);
      } else {
        var id :| ViewAt(m, Alone(id)).Some? && ViewAt(m, Alone(id)).value.name == name;
        assert IsStandalone(m, id, name);
      }
    }
  }

  lemma KeysDiffer(i: nat, j: nat)
    ensures Itoa(i) == Itoa(j) <==> i == j
  {
    assert Value(Itoa(i)) == i && Value(Itoa(j)) == j;
  }

  // --- the operations ---

  /** A wallet is created exactly under a valid name that nobody holds; it has index 0 and watermark 1. */
  lemma CreatedExactly(m: Meta, name: string, id: string, address0: Option<string>)
    requires Valid(m) && id !in m.wallets
    ensures var out := Created(m, name, id, address0);
      && (out == Refused(InvalidName) <==> !ValidName(name))
      && (out == Refused(Collision) <==> ValidName(name) && Held(m, name, None))
      && (out == Refused(Derivation) <==> ValidName(name) && !Held(m, name, None) && address0.None?)
      && (out.Done? <==> ValidName(name) && !Held(m, name, None) && address0.Some?)
      && (out.Done? ==>
            && out.value == id && out.meta.chosen == m.chosen
            && OnlyAt(m, out.meta, InWallet(id, 0), Some(View(name, address0.value, "")))
            && OnlyWallet(m, out.meta, id, Some((name, 1))))
  {
    if ValidName(name) {
      HeldIff(m, name, None);
    }
    var out := Created(m, name, id, address0);
    if out.Done? {
      forall q
        ensures ViewAt(out.meta, q) == if q == InWallet(id, 0) then Some(View(name, address0.value, "")) else ViewAt(m, q)
      {
        if q.InWallet? { KeysDiffer(q.index, 0); }
      }
    }
  }

  /** A rename changes the name that shows at the wallet's places, and nothing else. */
  lemma RenamedExactly(m: Meta, oldName: string, newName: string)
    requires Valid(m) && m.wallets.Keys !! m.accounts.Keys
    ensures var out, id := Renamed(m, oldName, newName), WalletNamed(m, oldName);
      && (out == Refused(InvalidName) <==> !ValidName(newName))
      && (out == Refused(NotFound) <==> ValidName(newName) && id.None?)
      && (out == Refused(Collision) <==> ValidName(newName) && id.Some? && Held(m, newName, id))
      && (out.Done? <==> ValidName(newName) && id.Some? && !Held(m, newName, id))
      && (out.Done? ==>
            && out.value == id.value && out.meta.chosen == m.chosen
            && (forall q :: ViewAt(out.meta, q) ==
                  if q.InWallet? && q.id == id.value && ViewAt(m, q).Some? then Some(ViewAt(m, q).value.(name := newName))
                  else ViewAt(m, q))
            && OnlyWallet(m, out.meta, id.value, Some((newName, WalletAt(m, id.value).value.1))))
  {
    var id := WalletNamed(m, oldName);
    if ValidName(newName) && id.Some? {
      HeldIff(m, newName, id);
      RenamedShows(m, id.value, newName);
    }
  }

  lemma RenamedShows(m: Meta, id: string, newName: string)
    requires id in m.wallets
    ensures var m' := WithWallet(m, id, m.wallets[id].(name := newName));
      && m'.chosen == m.chosen
      && (forall q :: ViewAt(m', q) ==
            if q.InWallet? && q.id == id && ViewAt(m, q).Some? then Some(ViewAt(m, q).value.(name := newName))
            else ViewAt(m, q))
      && OnlyWallet(m, m', id, Some((newName, WalletAt(m, id).value.1)))
  {}

  /** A text is a path into the wallet of this name. */
  ghost predicate IsPathInto(text: string, name: string) {
    exists tail :: text == PathRef(name, tail)
  }

  lemma PathIntoIff(text: string, name: string)
    requires ValidName(name)
    ensures PointsTo(text, name) <==> IsPathInto(text, name)
  {
    NameIsPlain(name);
    if PointsTo(text, name) {
      var i := Find(text, '/');
      assert text == PathRef(name, text[i + 1..]);
    }
    forall tail | text == PathRef(name, tail)
      ensures PointsTo(text, name)
    {
      SplitAtSlash(name, tail);
    }
  }

  /** A wallet's deletion takes its places and watermark, and the default if that is a path into it. */
  lemma WalletDeletedExactly(m: Meta, name: string)
    requires Valid(m)
    ensures var out, id := WalletDeleted(m, name), WalletNamed(m, name);
      && (out == Refused(NotFound) <==> id.None?) && (out.Done? <==> id.Some?)
      && (out.Done? ==>
            && out.value == id.value
            && out.meta.chosen == (if IsPathInto(m.chosen, WalletAt(m, id.value).value.0) then "" else m.chosen)
            && (forall q :: ViewAt(out.meta, q) == if q.InWallet? && q.id == id.value then None else ViewAt(m, q))
            && OnlyWallet(m, out.meta, id.value, None))
  {
    var id := WalletNamed(m, name);
    if id.Some? {
      PathIntoIff(m.chosen, m.wallets[id.value].name);
      WalletGone(m, id.value, WalletDeleted(m, name).meta);
    }
  }

  lemma WalletGone(m: Meta, id: string, m': Meta)
    requires m'.wallets == m.wallets - {id} && m'.accounts == m.accounts
    ensures forall q :: ViewAt(m', q) == if q.InWallet? && q.id == id then None else ViewAt(m, q)
    ensures OnlyWallet(m, m', id, None)
  {}

  lemma MaterializedShows(m: Meta, id: string, index: nat, address: string, next: uint32)
    requires id in m.wallets
    ensures var m' := WithWallet(m, id, Materialized(m.wallets[id], index, address, next));
      && OnlyAt(m, m', InWallet(id, index), Some(View(m.wallets[id].name, address, "")))
      && OnlyWallet(m, m', id, Some((m.wallets[id].name, next)))
      && m'.chosen == m.chosen
  {
    var m' := WithWallet(m, id, Materialized(m.wallets[id], index, address, next));
    forall q
      ensures ViewAt(m', q) ==
        if q == InWallet(id, index) then Some(View(m.wallets[id].name, address, "")) else ViewAt(m, q)
    {
      if q.InWallet? { KeysDiffer(q.index, index); }
    }
  }

  /** DeriveNext fills the empty place at the watermark, raises that by one, and touches nothing else. */
  lemma NextDerivedExactly(m: Meta, name: string, derived: Option<string>)
    requires Valid(m)
    ensures var out, id := NextDerived(m, name, derived), WalletNamed(m, name);
      && (out == Refused(NotFound) <==> id.None?)
      && (out == Refused(Derivation) <==> id.Some? && derived.None?)
      && (out.Done? <==> id.Some? && derived.Some?)
      && (out.Done? ==>
            var w := WalletAt(m, id.value).value;
            && out.value == (w.1, derived.value) && out.meta.chosen == m.chosen
            && ViewAt(m, InWallet(id.value, w.1)).None?
            && OnlyAt(m, out.meta, InWallet(id.value, w.1), Some(View(w.0, derived.value, "")))
            && OnlyWallet(m, out.meta, id.value, Some((w.0, if w.1 == MAX_UINT32 then 0 else w.1 + 1))))
  {
    var id := WalletNamed(m, name);
    if id.Some? && derived.Some? {
      var w := m.wallets[id.value];
      MaterializedShows(m, id.value, w.next, derived.value, Successor(w.next));
      if Itoa(w.next) in w.accounts {
        IndexOfKey(w, w.next);
      }
    }
  }

  /** DeriveIndex gives what shows at the index, or fills the empty place, with the watermark above it. */
  lemma IndexDerivedExactly(m: Meta, name: string, index: nat, derived: Option<string>)
    requires Valid(m)
    ensures var out, id := IndexDerived(m, name, index, derived), WalletNamed(m, name);
      var there := if id.Some? then ViewAt(m, InWallet(id.value, index)) else None;
      && (out == Refused(BadIndex) <==> index >= HARDENED)
      && (out == Refused(NotFound) <==> index < HARDENED && id.None?)
      && (out.Unchanged? <==> index < HARDENED && there.Some?)
      && (out.Unchanged? ==> out.value == there.value.address)
      && (out == Refused(Derivation) <==> index < HARDENED && id.Some? && there.None? && derived.None?)
      && (out.Done? <==> index < HARDENED && id.Some? && there.None? && derived.Some?)
      && (out.Done? ==>
            var w := WalletAt(m, id.value).value;
            && out.value == derived.value && out.meta.chosen == m.chosen
            && OnlyAt(m, out.meta, InWallet(id.value, index), Some(View(w.0, derived.value, "")))
            && OnlyWallet(m, out.meta, id.value, Some((w.0, if w.1 > index then w.1 else index + 1))))
  {
    var out, id := IndexDerived(m, name, index, derived), WalletNamed(m, name);
    if out.Done? {
      var w := m.wallets[id.value];
      MaterializedShows(m, id.value, index, derived.value, if index >= w.next then index + 1 else w.next);
    }
  }

  /** The alias shows at an index of the wallet other than this. */
  ghost predicate AliasElsewhere(m: Meta, id: string, index: nat, alias: string) {
    exists i :: i != index && ViewAt(m, InWallet(id, i)).Some? && ViewAt(m, InWallet(id, i)).value.alias == alias
  }

  lemma AliasElsewhereIff(m: Meta, id: string, index: nat, alias: string)
    requires Valid(m) && id in m.wallets
    ensures AliasInUse(m.wallets[id], alias, index) <==> AliasElsewhere(m, id, index, alias)
  {
    var w := m.wallets[id];
    if AliasInUse(w, alias, index) {
      var k :| k in w.accounts && IndexOf(k) != index && w.accounts[k].alias == alias;
      KeyOf(w, k);
      assert ViewAt(m, InWallet(id, IndexOf(k))).Some? && ViewAt(m, InWallet(id, IndexOf(k))).value.alias == alias;
    }
    if AliasElsewhere(m, id, index, alias) {
      var i :| i != index && ViewAt(m, InWallet(id, i)).Some? && ViewAt(m, InWallet(id, i)).value.alias == alias;
      IndexOfKey(w, i);
      assert IndexOf(Itoa(i)) == i;
    }
  }

  lemma AliasShows(m: Meta, id: string, index: nat, alias: string)
    requires id in m.wallets && Itoa(index) in m.wallets[id].accounts
    ensures var m' := WithWallet(m, id, WithAlias(m.wallets[id], index, alias));
      && OnlyAt(m, m', InWallet(id, index), Some(ViewAt(m, InWallet(id, index)).value.(alias := alias)))
      && SameWallets(m, m') && m'.chosen == m.chosen
  {
    var m' := WithWallet(m, id, WithAlias(m.wallets[id], index, alias));
    forall q
      ensures ViewAt(m', q) ==
        if q == InWallet(id, index) then Some(ViewAt(m, InWallet(id, index)).value.(alias := alias)) else ViewAt(m, q)
    {
      if q.InWallet? { KeysDiffer(q.index, index); }
    }
  }

  /** Alias changes the alias that shows at one place. */
  lemma AliasedExactly(m: Meta, name: string, index: nat, alias: string)
    requires Valid(m)
    ensures var out, id := Aliased(m, name, index, alias), WalletNamed(m, name);
      var there := if id.Some? then ViewAt(m, InWallet(id.value, index)) else None;
      && (out == Refused(InvalidName) <==> !ValidAlias(alias))
      && (out == Refused(NotFound) <==> ValidAlias(alias) && there.None?)
      && (out == Refused(Collision) <==> ValidAlias(alias) && there.Some? && AliasElsewhere(m, id.value, index, alias))
      && (out.Done? <==> ValidAlias(alias) && there.Some? && !AliasElsewhere(m, id.value, index, alias))
      && (out.Done? ==>
            && OnlyAt(m, out.meta, InWallet(id.value, index), Some(there.value.(alias := alias)))
            && SameWallets(m, out.meta) && out.meta.chosen == m.chosen)
  {
    var id := WalletNamed(m, name);
    if id.Some? && ViewAt(m, InWallet(id.value, index)).Some? {
      AliasElsewhereIff(m, id.value, index, alias);
      AliasShows(m, id.value, index, alias);
    }
  }

  lemma UnaliasedExactly(m: Meta, name: string, index: nat)
    requires Valid(m)
    ensures var out, id := Unaliased(m, name, index), WalletNamed(m, name);
      var there := if id.Some? then ViewAt(m, InWallet(id.value, index)) else None;
      && (out == Refused(NotFound) <==> there.None? || there.value.alias == "")
      && (out.Done? <==> there.Some? && there.value.alias != "")
      && (out.Done? ==>
            && out.value == there.value.alias
            && OnlyAt(m, out.meta, InWallet(id.value, index), Some(there.value.(alias := "")))
            && SameWallets(m, out.meta) && out.meta.chosen == m.chosen)
  {
    var id := WalletNamed(m, name);
    if id.Some? && ViewAt(m, InWallet(id.value, index)).Some? {
      AliasShows(m, id.value, index, "");
    }
  }

  ghost predicate AddressShows(m: Meta, address: string) {
    exists p :: ViewAt(m, p).Some? && ViewAt(m, p).value.address == address
  }

  lemma AddressShowsIff(m: Meta, address: string)
    requires Valid(m)
    ensures AddressExists(m, address) <==> AddressShows(m, address)
  {
    forall id, k | id in m.wallets && k in m.wallets[id].accounts && m.wallets[id].accounts[k].address == address
      ensures AddressShows(m, address)
    {
      KeyOf(m.wallets[id], k);
      assert ViewAt(m, InWallet(id, ParseIndex(k).value)).Some?;
      assert ViewAt(m, InWallet(id, ParseIndex(k).value)).value.address == address;
    }
    forall id | id in m.accounts && m.accounts[id].address == address
      ensures AddressShows(m, address)
    {
      assert ViewAt(m, Alone(id)).Some? && ViewAt(m, Alone(id)).value.address == address;
    }
  }

  /** An import adds one standalone account, under a name nobody holds and with an address that shows nowhere. */
  lemma ImportedExactly(m: Meta, name: string, id: string, address: Option<string>)
    requires Valid(m) && id !in m.accounts
    ensures var out := Imported(m, name, id, address);
      var free := ValidName(name) && !Held(m, name, None);
      && (out == Refused(InvalidName) <==> !ValidName(name))
      && (out == Refused(BadKey) <==> free && address.None?)
      && (out == Refused(Collision)
          <==> ValidName(name) && (Held(m, name, None) || (address.Some? && AddressShows(m, address.value))))
      && (out.Done? <==> free && address.Some? && !AddressShows(m, address.value))
      && (out.Done? ==>
            && out.value == id && out.meta.chosen == m.chosen
            && OnlyAt(m, out.meta, Alone(id), Some(View(name, address.value, "")))
            && SameWallets(m, out.meta))
  {
    if ValidName(name) {
      HeldIff(m, name, None);
    }
    if address.Some? {
      AddressShowsIff(m, address.value);
    }
  }

  /** The default is the text of this place: by index, by alias or by name. */
  predicate DefaultIs(m: Meta, p: Place) {
    && m.chosen != "" && ViewAt(m, p).Some?
    && var v := ViewAt(m, p).value;
       if p.Alone? then m.chosen == v.name
       else m.chosen == PathRef(v.name, Itoa(p.index)) || (v.alias != "" && m.chosen == PathRef(v.name, v.alias))
  }

  /** DeleteAccount empties one place and clears the default exactly if that was the place's text; every other
      place, every wallet's name and every watermark stay. */
  lemma DeletedExactly(m: Meta, ref: Ref)
    requires Valid(m)
    ensures var out, p := Deleted(m, ref), Resolve(m, ref);
      && (p.Err? <==> out.Refused?) && (p.Err? ==> out == Refused(p.error)) && (p.Ok? <==> out.Done?)
      && (out.Done? ==>
            && out.value == p.value && OnlyAt(m, out.meta, p.value, None) && SameWallets(m, out.meta)
            && out.meta.chosen == if DefaultIs(m, p.value) then "" else m.chosen)
  {
    var p := Resolve(m, ref);
    if p.Ok? {
      match p.value
      case InWallet(id, index) => ForgottenShows(m, id, index, Deleted(m, ref).meta);
      case Alone(id) => RemovedShows(m, id, Deleted(m, ref).meta);
    }
  }

  lemma ForgottenShows(m: Meta, id: string, index: nat, m': Meta)
    requires id in m.wallets && Itoa(index) in m.wallets[id].accounts
    requires var w := m.wallets[id];
      var chosen := if IsDefault(m, w, Itoa(index)) then "" else m.chosen;
      m' == WithWallet(m.(chosen := chosen), id, w.(accounts := w.accounts - {Itoa(index)}))
    ensures OnlyAt(m, m', InWallet(id, index), None) && SameWallets(m, m')
    ensures m'.chosen == if DefaultIs(m, InWallet(id, index)) then "" else m.chosen
  {
    assert DefaultIs(m, InWallet(id, index)) <==> IsDefault(m, m.wallets[id], Itoa(index));
    KeyDropped(m, id, index, m');
  }

  lemma KeyDropped(m: Meta, id: string, index: nat, m': Meta)
    requires id in m.wallets && m'.accounts == m.accounts
    requires m'.wallets == m.wallets[id := m.wallets[id].(accounts := m.wallets[id].accounts - {Itoa(index)})]
    ensures OnlyAt(m, m', InWallet(id, index), None) && SameWallets(m, m')
  {
    forall q
      ensures ViewAt(m', q) == if q == InWallet(id, index) then None else ViewAt(m, q)
    {
      if q.InWallet? { KeysDiffer(q.index, index); }
    }
  }

  lemma RemovedShows(m: Meta, id: string, m': Meta)
    requires Valid(m) && id in m.accounts
    requires var chosen := if m.chosen == m.accounts[id].name then "" else m.chosen;
      m' == m.(chosen := chosen, accounts := m.accounts - {id})
    ensures OnlyAt(m, m', Alone(id), None) && SameWallets(m, m')
    ensures m'.chosen == if DefaultIs(m, Alone(id)) then "" else m.chosen
  {
    NameIsPlain(m.accounts[id].name);
  }

  /** So every reference to another place still resolves to it, and those to the deleted one to nothing. */
  lemma DeletedResolves(m: Meta, ref: Ref, other: Ref)
    requires Valid(m) && Deleted(m, ref).Done?
    ensures Resolve(Deleted(m, ref).meta, other)
         == if Resolve(m, other) == Resolve(m, ref) then Err(NotFound) else Resolve(m, other)
  {
    var m', p := Deleted(m, ref).meta, Resolve(m, ref).value;
    DeletedExactly(m, ref);
    DeletedValid(m, ref);
    ResolveIff(m, other, p);
    if Resolve(m, other) == Ok(p) {
      NoPlaceLeft(m, m', other, p);
    } else {
      forall q
        ensures Meets(m, other, q) <==> Meets(m', other, q)
      {
        assert ViewAt(m', q) == if q == p then None else ViewAt(m, q);
      }
      SameMeaning(m, other, m', other);
    }
  }

  lemma NoPlaceLeft(m: Meta, m': Meta, ref: Ref, p: Place)
    requires Valid(m) && Valid(m') && OnlyAt(m, m', p, None) && Resolve(m, ref) == Ok(p)
    ensures Resolve(m', ref) == Err(NotFound)
  {
    ResolveIff(m', ref, p);
    if Resolve(m', ref).Ok? {
      var q := Resolve(m', ref).value;
      ResolveIff(m', ref, q);
      ResolveIff(m, ref, q);
      assert false;
    }
  }

  /** SetDefault stores the text of the place, and changes nothing else. */
  lemma DefaultSetExactly(m: Meta, ref: Ref)
    requires Valid(m)
    ensures var out, p := DefaultSet(m, ref), Resolve(m, ref);
      && (p.Err? <==> out.Refused?) && (p.Err? ==> out == Refused(p.error)) && (p.Ok? <==> out.Done?)
      && (out.Done? ==>
            && (forall q :: ViewAt(out.meta, q) == ViewAt(m, q)) && SameWallets(m, out.meta)
            && out.meta.chosen == (var v := ViewAt(m, p.value).value;
                                   if p.value.Alone? then v.name else PathRef(v.name, Itoa(p.value.index))))
  {}
}
