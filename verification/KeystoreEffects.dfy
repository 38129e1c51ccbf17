/** What a keystore mutation does to later lookups. */
module KeystoreEffects {
  import opened Text
  import opened AccountRef
  import opened Keystore

  /** An index reference, once its wallet is known. */
  lemma IndexLookup(m: Meta, name: string, id: string, index: nat)
    requires id in m.wallets && WalletNamed(m, name) == Some(id)
    ensures AddressOf(m, HDIndex(name, index)) ==
      if Itoa(index) in m.wallets[id].accounts then Ok(m.wallets[id].accounts[Itoa(index)].address) else Err(NotFound)
  {}

  /** A name that finds a wallet is its name up to case, so it finds the same wallet as long as names stay. */
  lemma StillFinds(m: Meta, m': Meta, name: string)
    requires Valid(m') && WalletNamed(m, name).Some?
    requires var id := WalletNamed(m, name).value; id in m'.wallets && m'.wallets[id].name == m.wallets[id].name
    ensures WalletNamed(m', name) == WalletNamed(m, name)
  {
    var id := WalletNamed(m, name).value;
    assert IsWallet(m', id, name);
    LookupsAreDeterministic(m', name, id, id);
  }

  /** What DeriveNext returned resolves, under the wallet's name and that index, to the derived address. */
  lemma NextDerivedResolves(m: Meta, name: string, address: string)
    requires Valid(m) && NextDerived(m, name, Some(address)).Done? && NextDerived(m, name, Some(address)).value.0 < MAX_UINT32
    ensures var m', r := NextDerived(m, name, Some(address)).meta, NextDerived(m, name, Some(address)).value;
      r.1 == address && AddressOf(m', HDIndex(name, r.0)) == Ok(address)
  {
    var m' := NextDerived(m, name, Some(address)).meta;
    NextDerivedValidIff(m, name, Some(address));
    StillFinds(m, m', name);
  }

  /** The same for DeriveIndex, whether or not the index was there before. */
  lemma IndexDerivedResolves(m: Meta, name: string, index: nat, derived: Option<string>)
    requires Valid(m)
    ensures var out := IndexDerived(m, name, index, derived);
      && (out.Done? ==> AddressOf(out.meta, HDIndex(name, index)) == Ok(out.value))
      && (out.Unchanged? ==> AddressOf(m, HDIndex(name, index)) == Ok(out.value))
  {
    var out := IndexDerived(m, name, index, derived);
    if out.Done? {
      IndexDerivedValid(m, name, index, derived);
      StillFinds(m, out.meta, name);
      IndexLookup(out.meta, name, WalletNamed(m, name).value, index);
    } else if out.Unchanged? {
      IndexLookup(m, name, WalletNamed(m, name).value, index);
    }
  }

  /** A new alias resolves to the index it was given, and to nothing else. */
  lemma AliasResolves(m: Meta, name: string, index: nat, alias: string)
    requires Valid(m) && Aliased(m, name, index, alias).Done?
    ensures Resolve(Aliased(m, name, index, alias).meta, HDAlias(name, alias))
         == Ok(InWallet(WalletNamed(m, name).value, index))
  {
    var id := WalletNamed(m, name).value;
    var m' := Aliased(m, name, index, alias).meta;
    AliasedValid(m, name, index, alias);
    StillFinds(m, m', name);
    IndexOfKey(m.wallets[id], index);
    AliasIndex(m'.wallets[id], HDAlias(name, alias), Itoa(index));
  }

  /** A removed alias resolves to nothing. */
  lemma UnaliasForgets(m: Meta, name: string, index: nat)
    requires Valid(m) && Unaliased(m, name, index).Done?
    ensures Resolve(Unaliased(m, name, index).meta, HDAlias(name, Unaliased(m, name, index).value)) == Err(NotFound)
  {
    var id := WalletNamed(m, name).value;
    var m' := Unaliased(m, name, index).meta;
    UnaliasedValid(m, name, index);
    StillFinds(m, m', name);
    AliasCleared(m.wallets[id], index, HDAlias(name, Unaliased(m, name, index).value));
  }

  lemma AliasCleared(w: Wallet, index: nat, ref: Ref)
    requires WalletOk(w) && Itoa(index) in w.accounts
    requires ref.HDAlias? && ref.alias == w.accounts[Itoa(index)].alias != ""
    ensures IndexFor(WithAlias(w, index, ""), ref).None?
  {
    forall k
      ensures !HasAlias(WithAlias(w, index, ""), k, ref.alias)
    {
      if k in w.accounts && k != Itoa(index) {
        assert w.accounts[k].alias != ref.alias;
      }
    }
  }

  /** Setting an alias and removing it again restores the metadata, if there was none before. */
  lemma UnaliasUndoesAlias(m: Meta, name: string, index: nat, alias: string)
    requires Valid(m) && Aliased(m, name, index, alias).Done?
    requires m.wallets[WalletNamed(m, name).value].accounts[Itoa(index)].alias == ""
    ensures Unaliased(Aliased(m, name, index, alias).meta, name, index) == Done(m, alias)
  {
    var id := WalletNamed(m, name).value;
    var m' := Aliased(m, name, index, alias).meta;
    AliasedValid(m, name, index, alias);
    StillFinds(m, m', name);
    RestoreAlias(m.wallets[id], index, alias);
    RestoreWallet(m, id, WithAlias(m.wallets[id], index, alias));
  }

  lemma RestoreAlias(w: Wallet, index: nat, alias: string)
    requires Itoa(index) in w.accounts && w.accounts[Itoa(index)].alias == ""
    ensures WithAlias(WithAlias(w, index, alias), index, "") == w
  {
    assert WithAlias(WithAlias(w, index, alias), index, "").accounts == w.accounts;
  }

  lemma RestoreWallet(m: Meta, id: string, w: Wallet)
    requires id in m.wallets
    ensures WithWallet(WithWallet(m, id, w), id, m.wallets[id]) == m
  {
    assert WithWallet(WithWallet(m, id, w), id, m.wallets[id]).wallets == m.wallets;
  }

  /** After DeleteAccount the reference leads nowhere, and a wallet's next_index is what it was. */
  lemma DeletedIsGone(m: Meta, ref: Ref)
    requires Valid(m) && Deleted(m, ref).Done?
    ensures Resolve(Deleted(m, ref).meta, ref) == Err(NotFound)
    ensures ref.HDIndex? || ref.HDAlias? ==>
      Deleted(m, ref).meta.wallets[Deleted(m, ref).value.id].next == m.wallets[Deleted(m, ref).value.id].next
  {
    var m' := Deleted(m, ref).meta;
    var p := Deleted(m, ref).value;
    DeletedValid(m, ref);
    if p.InWallet? {
      StillFinds(m, m', ref.wallet);
      if ref.HDAlias? {
        AliasGone(m.wallets[p.id], m'.wallets[p.id], ref, p.index);
      }
    } else {
      forall id
        ensures !IsStandalone(m', id, ref.name)
      {
        if IsStandalone(m', id, ref.name) {
          OneStandalone(m, ref.name, id, p.id);
        }
      }
    }
  }

  lemma AliasGone(w: Wallet, w': Wallet, ref: Ref, index: nat)
    requires WalletOk(w) && ref.HDAlias? && IndexFor(w, ref) == Some(index)
    requires w'.accounts == w.accounts - {Itoa(index)}
    ensures IndexFor(w', ref).None?
  {
    forall k
      ensures !HasAlias(w', k, ref.alias)
    {
      if HasAlias(w', k, ref.alias) {
        AliasIndex(w, ref, k);
        KeyOf(w, k);
      }
    }
  }

  /** A rename moves every account along: under the new name each index has the address it had. */
  lemma RenameMovesAccounts(m: Meta, oldName: string, newName: string, index: nat)
    requires Valid(m) && m.wallets.Keys !! m.accounts.Keys && Renamed(m, oldName, newName).Done?
    ensures AddressOf(Renamed(m, oldName, newName).meta, HDIndex(newName, index)) == AddressOf(m, HDIndex(oldName, index))
  {
    var id := WalletNamed(m, oldName).value;
    var m' := Renamed(m, oldName, newName).meta;
    RenamedValid(m, oldName, newName);
    assert m'.wallets[id].name == newName;
    NameFinds(m', id);
    IndexLookup(m, oldName, id, index);
    IndexLookup(m', newName, id, index);
  }

  /** ImportStandalone never registers an address the keystore already has, and the new name resolves to it. */
  lemma ImportIsNew(m: Meta, name: string, id: string, address: Option<string>)
    requires Valid(m) && id !in m.accounts && Imported(m, name, id, address).Done?
    ensures !AddressExists(m, address.value)
    ensures AddressOf(Imported(m, name, id, address).meta, Named(name)) == Ok(address.value)
  {
    var m' := Imported(m, name, id, address).meta;
    ImportedValid(m, name, id, address);
    assert m'.accounts[id].name == name;
    LookupsAreDeterministic(m', name, id, id);
  }
}
